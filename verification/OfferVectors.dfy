/**
 * The ten pricing-vector slots of an offer: lookup, in-place collection and the instructions that change them
 * (programs/onreapp/src/instructions/offer, replicated in trident-tests/fuzz_0/utility.rs).
 */
module OfferVectors {
  import opened Common

  const MAX_VECTORS := 10

  datatype OfferVector = OfferVector(startTime: u64, baseTime: u64, basePrice: u64, apr: u64, fixDuration: u64)

  /** `OfferVector::default()`; a slot is empty when its start time is zero. */
  const EMPTY := OfferVector(0, 0, 0, 0, 0)

  datatype OfferError =
    | StartTimeInPast | ZeroValue | DuplicateStartTime | InvalidTimeRange | TooManyVectors | VectorNotFound
    | ArithmeticPanic

  // ---------------------------------------------------------------- lookup

  predicate Started(v: OfferVector, time: int)
  {
    v.startTime != 0 && v.startTime <= time
  }

  /** `find_active_vector_at`: the latest started vector, the last one among equals. */
  function FindActive(vs: seq<OfferVector>, time: int): Option<OfferVector>
  {
    if vs == [] then None
    else
      var v, earlier := vs[|vs| - 1], FindActive(vs[..|vs| - 1], time);
      if Started(v, time) && (earlier.None? || earlier.value.startTime <= v.startTime) then Some(v) else earlier
  }

  /** Slot `i` holds the latest started vector, and no later slot ties with it. */
  ghost predicate IsLatestStarted(vs: seq<OfferVector>, time: int, i: nat)
  {
    && i < |vs| && 0 < vs[i].startTime <= time
    && forall j :: 0 <= j < |vs| && 0 < vs[j].startTime <= time ==>
         vs[j].startTime < vs[i].startTime || (vs[j].startTime == vs[i].startTime && j <= i)
  }

  lemma {:induction false} FindActiveSound(vs: seq<OfferVector>, time: int)
    ensures FindActive(vs, time).None? ==> forall i :: 0 <= i < |vs| ==> !Started(vs[i], time)
    ensures FindActive(vs, time).Some? ==> exists i: nat ::
      IsLatestStarted(vs, time, i) && vs[i] == FindActive(vs, time).value
  {
    if vs == [] {
    } else {
      var init, last := vs[..|vs| - 1], |vs| - 1;
      FindActiveSound(init, time);
      var earlier := FindActive(init, time);
      assert forall i :: 0 <= i < last ==> init[i] == vs[i];
      if earlier.None? {
        assert Started(vs[last], time) ==> IsLatestStarted(vs, time, last);
      } else {
        var i: nat :| IsLatestStarted(init, time, i) && init[i] == earlier.value;
        if Started(vs[last], time) && vs[i].startTime <= vs[last].startTime {
          assert IsLatestStarted(vs, time, last);
        } else {
          assert IsLatestStarted(vs, time, i);
        }
      }
    }
  }

  /** The lookup returns the latest started vector, and only that. */
  lemma {:induction false} FindActiveCharacterised(vs: seq<OfferVector>, time: int)
    ensures FindActive(vs, time).None? <==> forall i :: 0 <= i < |vs| ==> !(0 < vs[i].startTime <= time)
    ensures FindActive(vs, time).Some? ==> exists i: nat ::
      IsLatestStarted(vs, time, i) && vs[i] == FindActive(vs, time).value
    ensures forall i: nat :: IsLatestStarted(vs, time, i) ==> FindActive(vs, time) == Some(vs[i])
  {
    FindActiveSound(vs, time);
    OneLatest(vs, time);
  }

  lemma OneLatest(vs: seq<OfferVector>, time: int)
    ensures forall i: nat, j: nat :: IsLatestStarted(vs, time, i) && IsLatestStarted(vs, time, j) ==> i == j
  {
  }

  // ---------------------------------------------------------------- collection

  /** Start of the vector that counts as active while `newVector` is being added at `now`. */
  function ActiveStart(vs: seq<OfferVector>, newVector: OfferVector, now: u64): Option<u64>
  {
    if newVector.startTime == now then Some(newVector.startTime)
    else
      match FindActive(vs, now)
      case Some(v) => Some(v.startTime)
      case None => None
  }

  /** Start of the vector before the one starting at `active`, zero when there is none. */
  function PrevStart(vs: seq<OfferVector>, active: u64): u64
  {
    match FindActive(vs, active - 1)
    case Some(v) => v.startTime
    case None => 0
  }

  predicate Retired(v: OfferVector, active: u64, prev: u64)
  {
    v.startTime != 0 && v.startTime != active && v.startTime != prev && v.startTime < active
  }

  /** The slots after `clean_old_vectors`. */
  function Cleaned(vs: seq<OfferVector>, newVector: OfferVector, now: u64): (cleaned: seq<OfferVector>)
    ensures |cleaned| == |vs|
  {
    match ActiveStart(vs, newVector, now)
    case None => vs
    case Some(active) =>
      seq(|vs|, i requires 0 <= i < |vs| => if Retired(vs[i], active, PrevStart(vs, active)) then EMPTY else vs[i])
  }

  /** `clean_old_vectors`. Only a vector starting at time zero, added at time zero, makes `start - 1` underflow. */
  method CleanOldVectors(vectors: array<OfferVector>, newVector: OfferVector, now: u64)
    returns (r: Result<(), OfferError>)
    modifies vectors
    ensures r == if newVector.startTime == now == 0 then Err(ArithmeticPanic) else Ok(())
    ensures vectors[..] == if r.Ok? then Cleaned(old(vectors[..]), newVector, now) else old(vectors[..])
  {
    var active := ActiveStart(vectors[..], newVector, now);
    if active.None? {
      return Ok(());
    }
    if active.value == 0 {
      FindActiveCharacterised(vectors[..], now);
      return Err(ArithmeticPanic);
    }
    var prev := PrevStart(vectors[..], active.value);
    for i := 0 to vectors.Length
      invariant forall j :: 0 <= j < i ==>
        vectors[j] == if Retired(old(vectors[j]), active.value, prev) then EMPTY else old(vectors[j])
      invariant forall j :: i <= j < vectors.Length ==> vectors[j] == old(vectors[j])
    {
      if Retired(vectors[i], active.value, prev) {
        vectors[i] := EMPTY;
      }
    }
    return Ok(());
  }

  // ---------------------------------------------------------------- collection as one cut

  predicate HasStart(vs: seq<OfferVector>, start: int)
  {
    exists i :: 0 <= i < |vs| && vs[i].startTime == start
  }

  /** Start of the vector active at `time`, zero when there is none. */
  function StartAt(vs: seq<OfferVector>, time: int): u64
  {
    match FindActive(vs, time)
    case Some(v) => v.startTime
    case None => 0
  }

  lemma StartAtIsLatest(vs: seq<OfferVector>, time: int)
    ensures FindActive(vs, time).None? <==> StartAt(vs, time) == 0
    ensures StartAt(vs, time) > 0 ==> HasStart(vs, StartAt(vs, time)) && StartAt(vs, time) <= time
    ensures forall start :: HasStart(vs, start) && 0 < start <= time ==> start <= StartAt(vs, time)
  {
    FindActiveCharacterised(vs, time);
    forall start | HasStart(vs, start) && 0 < start <= time
      ensures start <= StartAt(vs, time)
    {
      var i :| 0 <= i < |vs| && vs[i].startTime == start;
      assert Started(vs[i], time);
    }
  }

  /** The start found is the only one with these properties. */
  lemma StartAtUnique(vs: seq<OfferVector>, time: int, start: int)
    requires start == 0 || (HasStart(vs, start) && 0 < start <= time)
    requires forall s :: HasStart(vs, s) && 0 < s <= time ==> s <= start
    ensures StartAt(vs, time) == start
  {
    StartAtIsLatest(vs, time);
  }

  /** Everything that starts before this is collected: the start of the vector before the active one, or zero. */
  function Cutoff(vs: seq<OfferVector>, newVector: OfferVector, now: u64): u64
  {
    var active := if newVector.startTime == now then now else StartAt(vs, now);
    if active == 0 then 0 else StartAt(vs, active - 1)
  }

  function DropBefore(vs: seq<OfferVector>, cutoff: u64): (kept: seq<OfferVector>)
    ensures |kept| == |vs|
  {
    seq(|vs|, i requires 0 <= i < |vs| =>
          if vs[i].startTime < cutoff then OfferVector(0, 0, 0, 0, 0) else vs[i])
  }

  /** Empty slots carry no other data. */
  predicate EmptySlotsBlank(vs: seq<OfferVector>)
  {
    forall i :: 0 <= i < |vs| && vs[i].startTime == 0 ==> vs[i] == OfferVector(0, 0, 0, 0, 0)
  }

  /** Collection is one cut: keep the vector before the active one and everything after it. */
  lemma CleaningIsACut(vs: seq<OfferVector>, newVector: OfferVector, now: u64)
    requires EmptySlotsBlank(vs) && !(newVector.startTime == now == 0)
    ensures Cleaned(vs, newVector, now) == DropBefore(vs, Cutoff(vs, newVector, now))
    ensures Cutoff(vs, newVector, now) > 0 ==>
      HasStart(vs, Cutoff(vs, newVector, now)) && Cutoff(vs, newVector, now) < now
  {
    var cutoff := Cutoff(vs, newVector, now);
    StartAtIsLatest(vs, now);
    var active := ActiveStart(vs, newVector, now);
    if active.Some? {
      StartAtIsLatest(vs, active.value - 1);
      assert cutoff == PrevStart(vs, active.value);
      forall i | 0 <= i < |vs|
        ensures Retired(vs[i], active.value, cutoff) <==> 0 < vs[i].startTime < cutoff
      {
        assert HasStart(vs, vs[i].startTime);
      }
    }
  }

  lemma CutHasStart(vs: seq<OfferVector>, cutoff: u64, start: int)
    requires start > 0
    ensures HasStart(DropBefore(vs, cutoff), start) <==> HasStart(vs, start) && start >= cutoff
  {
    var kept := DropBefore(vs, cutoff);
    if HasStart(kept, start) {
      var i :| 0 <= i < |kept| && kept[i].startTime == start;
      assert vs[i].startTime == start;
    }
    if HasStart(vs, start) && start >= cutoff {
      var i :| 0 <= i < |vs| && vs[i].startTime == start;
      assert kept[i].startTime == start;
    }
  }

  /** A lookup after a cut finds what it found before, unless that was cut. */
  lemma CutStartAt(vs: seq<OfferVector>, cutoff: u64, time: int)
    ensures StartAt(DropBefore(vs, cutoff), time) == if StartAt(vs, time) >= cutoff then StartAt(vs, time) else 0
  {
    var kept := DropBefore(vs, cutoff);
    var start := if StartAt(vs, time) >= cutoff then StartAt(vs, time) else 0;
    StartAtIsLatest(vs, time);
    if start > 0 {
      CutHasStart(vs, cutoff, start);
    }
    forall s | HasStart(kept, s) && 0 < s <= time
      ensures s <= start
    {
      CutHasStart(vs, cutoff, s);
    }
    StartAtUnique(kept, time, start);
  }

  /**
   * After collection a lookup is unchanged exactly at the times from the cutoff on, or where it found nothing before.
   */
  lemma CleaningPreservesLookup(vs: seq<OfferVector>, newVector: OfferVector, now: u64, time: u64)
    requires EmptySlotsBlank(vs) && !(newVector.startTime == now == 0)
    ensures FindActive(Cleaned(vs, newVector, now), time) == FindActive(vs, time)
       <==> time >= Cutoff(vs, newVector, now) || FindActive(vs, time).None?
  {
    var cutoff := Cutoff(vs, newVector, now);
    CleaningIsACut(vs, newVector, now);
    StartAtIsLatest(vs, time);
    CutStartAt(vs, cutoff, time);
    if time >= cutoff {
      CutPreservesLookup(vs, cutoff, time);
    } else {
      StartAtIsLatest(DropBefore(vs, cutoff), time);
    }
  }

  /** A cut at a stored start (or at none) keeps the very same slot as the answer, ties included. */
  lemma CutPreservesLookup(vs: seq<OfferVector>, cutoff: u64, time: int)
    requires time >= cutoff && (cutoff > 0 ==> HasStart(vs, cutoff))
    ensures FindActive(DropBefore(vs, cutoff), time) == FindActive(vs, time)
  {
    var kept := DropBefore(vs, cutoff);
    FindActiveCharacterised(vs, time);
    FindActiveCharacterised(kept, time);
    if FindActive(vs, time).Some? {
      var i: nat :| IsLatestStarted(vs, time, i) && vs[i] == FindActive(vs, time).value;
      StartAtIsLatest(vs, time);
      assert IsLatestStarted(kept, time, i);
    }
  }

  /** Two cuts agree exactly when nothing starts between them. */
  lemma CutsEqual(vs: seq<OfferVector>, c1: u64, c2: u64)
    requires EmptySlotsBlank(vs) && c1 <= c2
    ensures DropBefore(vs, c1) == DropBefore(vs, c2) <==> forall s :: HasStart(vs, s) && c1 <= s < c2 ==> s == 0
  {
    if DropBefore(vs, c1) == DropBefore(vs, c2) {
      forall s | HasStart(vs, s) && c1 <= s < c2
        ensures s == 0
      {
        var i :| 0 <= i < |vs| && vs[i].startTime == s;
        assert DropBefore(vs, c1)[i] == DropBefore(vs, c2)[i];
      }
    } else {
      var i :| 0 <= i < |vs| && DropBefore(vs, c1)[i] != DropBefore(vs, c2)[i];
      assert HasStart(vs, vs[i].startTime);
    }
  }

  /** The one case in which an earlier collection matters to a later one. */
  ghost predicate CollectsTooEarly(vs: seq<OfferVector>, newVector: OfferVector, t1: u64, t2: u64)
  {
    && newVector.startTime == t1 < t2
    && (forall s :: HasStart(vs, s) ==> !(t1 <= s <= t2))
    && exists s, s' :: HasStart(vs, s) && HasStart(vs, s') && 0 < s < s' < t1
  }

  /**
   * Collecting at `t1` and again at `t2` leaves the same slots as collecting once at `t2`, for any slots, ties
   * included, unless the vector being added starts at `t1`, nothing stored starts in `[t1, t2]`, and two older starts
   * remain.
   */
  lemma CleaningConfluent(vs: seq<OfferVector>, newVector: OfferVector, t1: u64, t2: u64)
    requires EmptySlotsBlank(vs) && newVector.startTime > 0 && t1 <= t2
    ensures Cleaned(Cleaned(vs, newVector, t1), newVector, t2) == Cleaned(vs, newVector, t2)
       <==> !CollectsTooEarly(vs, newVector, t1, t2)
  {
    var c1, c2 := Cutoff(vs, newVector, t1), Cutoff(vs, newVector, t2);
    var once := DropBefore(vs, c1);
    CleaningIsACut(vs, newVector, t1);
    CleaningIsACut(vs, newVector, t2);
    CleaningIsACut(once, newVector, t2);
    var c12 := Cutoff(once, newVector, t2);
    assert DropBefore(once, c12) == DropBefore(vs, if c1 <= c12 then c12 else c1);
    SecondCutoff(vs, newVector, t1, t2);
    if StartAt(vs, t2) == c1 && newVector.startTime == t1 < t2 && c1 > 0 {
      EarlyCase(vs, newVector, t1, t2);
      CutsEqual(vs, c2, c1);
    } else if CollectsTooEarly(vs, newVector, t1, t2) {
      EarlyCutoff(vs, newVector, t1, t2);
    }
  }

  /** The case does occur: two started vectors, and a third that is checked at its start and added only later. */
  lemma EarlyCollectionMatters()
    ensures var vs, v := [OfferVector(1, 1, 1, 0, 1), OfferVector(2, 2, 1, 0, 1)], OfferVector(10, 10, 1, 0, 1);
      && EmptySlotsBlank(vs) && CollectsTooEarly(vs, v, 10, 20)
      && Cleaned(Cleaned(vs, v, 10), v, 20) != Cleaned(vs, v, 20)
  {
    var vs, v := [OfferVector(1, 1, 1, 0, 1), OfferVector(2, 2, 1, 0, 1)], OfferVector(10, 10, 1, 0, 1);
    assert vs[0].startTime == 1 && vs[1].startTime == 2;
    assert HasStart(vs, 1) && HasStart(vs, 2);
    CleaningConfluent(vs, v, 10, 20);
  }

  /** Normally both collections at `t2` cut at the same place, at or after the first cut. */
  lemma SecondCutoff(vs: seq<OfferVector>, newVector: OfferVector, t1: u64, t2: u64)
    requires EmptySlotsBlank(vs) && newVector.startTime > 0 && t1 <= t2
    ensures var c1, c2 := Cutoff(vs, newVector, t1), Cutoff(vs, newVector, t2);
      var early := StartAt(vs, t2) == c1 && newVector.startTime == t1 < t2 && c1 > 0;
      if early then c2 <= c1 && Cutoff(DropBefore(vs, c1), newVector, t2) == 0
      else c1 <= c2 && Cutoff(DropBefore(vs, c1), newVector, t2) == c2
  {
    var c1, c2 := Cutoff(vs, newVector, t1), Cutoff(vs, newVector, t2);
    var active1 := if newVector.startTime == t1 then t1 else StartAt(vs, t1);
    var active2 := if newVector.startTime == t2 then t2 else StartAt(vs, t2);
    StartAtIsLatest(vs, t1);
    StartAtIsLatest(vs, t2);
    StartAtIsLatest(vs, active1 - 1);
    StartAtIsLatest(vs, active2 - 1);
    CutStartAt(vs, c1, t2);
    CutStartAt(vs, c1, active2 - 1);
  }

  /** The cut at `t1` is at the vector active at `t2` exactly when nothing starts in between. */
  lemma EarlyCase(vs: seq<OfferVector>, newVector: OfferVector, t1: u64, t2: u64)
    requires newVector.startTime == t1 < t2 && Cutoff(vs, newVector, t1) > 0
      && StartAt(vs, t2) == Cutoff(vs, newVector, t1)
    ensures CollectsTooEarly(vs, newVector, t1, t2)
       <==> exists s :: HasStart(vs, s) && Cutoff(vs, newVector, t2) <= s < Cutoff(vs, newVector, t1) && s != 0
  {
    var c1, c2 := Cutoff(vs, newVector, t1), Cutoff(vs, newVector, t2);
    StartAtIsLatest(vs, t1 - 1);
    StartAtIsLatest(vs, t2);
    StartAtIsLatest(vs, c1 - 1);
    assert forall s :: HasStart(vs, s) ==> !(t1 <= s <= t2);
    if CollectsTooEarly(vs, newVector, t1, t2) {
      var s, s' :| HasStart(vs, s) && HasStart(vs, s') && 0 < s < s' < t1;
      assert s' <= c1;
      assert 0 < s <= c2 && HasStart(vs, c2) && c2 < c1;
    }
    if s :| HasStart(vs, s) && c2 <= s < c1 && s != 0 {
      assert HasStart(vs, c1) && 0 < s < c1 < t1;
    }
  }

  lemma EarlyCutoff(vs: seq<OfferVector>, newVector: OfferVector, t1: u64, t2: u64)
    requires CollectsTooEarly(vs, newVector, t1, t2)
    ensures StartAt(vs, t2) == Cutoff(vs, newVector, t1) > 0
  {
    StartAtIsLatest(vs, t1 - 1);
    StartAtIsLatest(vs, t2);
    var s, s' :| HasStart(vs, s) && HasStart(vs, s') && 0 < s < s' < t1;
    assert s' <= StartAt(vs, t1 - 1) && s' <= StartAt(vs, t2);
  }
}
