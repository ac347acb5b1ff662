/**
 * Whole runs of vector instructions: the ten collected slots against the unbounded log of everything added
 * (programs/onreapp/src/instructions/offer/add_offer_vector.rs, delete_offer_vector.rs, delete_all_offer_vectors.rs).
 */
module OfferRuns {
  import opened Common
  import opened OfferVectors

  datatype Op =
    | Add(startTime: Option<u64>, baseTime: u64, basePrice: u64, apr: u64, fixDuration: u64)
    | Delete(start: u64)
    | DeleteAll

  /** A transaction at a time of the clock. */
  datatype Event<A> = Event(now: u64, op: A)

  type Outcome = Result<(), OfferError>

  // ---------------------------------------------------------------- the instructions on the slots

  /** The vector an `Add` asks for; its start defaults to the later of the clock and the base time. */
  function Requested(op: Op, now: u64): OfferVector
    requires op.Add?
  {
    var start := match op.startTime
      case Some(s) => s
      case None => if now >= op.baseTime then now else op.baseTime;
    OfferVector(start, op.baseTime, op.basePrice, op.apr, op.fixDuration)
  }

  /** Latest start among the stored vectors, zero when nothing is stored. */
  function LatestStart(vs: seq<OfferVector>): u64
  {
    if vs == [] then 0
    else
      var rest := LatestStart(vs[..|vs| - 1]);
      if vs[|vs| - 1].startTime > rest then vs[|vs| - 1].startTime else rest
  }

  /** `validate_inputs`, checks in the program's order. */
  function Validate(vs: seq<OfferVector>, v: OfferVector, now: u64): Outcome
  {
    if v.startTime < now then Err(StartTimeInPast)
    else if v.baseTime == 0 || v.basePrice == 0 || v.fixDuration == 0 then Err(ZeroValue)
    else if v.startTime != 0 && HasStart(vs, v.startTime) then Err(DuplicateStartTime)
    else if LatestStart(vs) != 0 && v.startTime <= LatestStart(vs) then Err(InvalidTimeRange)
    else Ok(())
  }

  /** `find_vector_index_by_start_time`: the first slot with this start. */
  function FindIndex(vs: seq<OfferVector>, start: u64): (r: Option<nat>)
    ensures r.Some? ==> r.value < |vs| && vs[r.value].startTime == start
    ensures r.Some? ==> forall j :: 0 <= j < r.value ==> vs[j].startTime != start
    ensures r.None? ==> !HasStart(vs, start)
  {
    if vs == [] then None
    else if vs[0].startTime == start then Some(0)
    else
      match FindIndex(vs[1..], start)
      case None => None
      case Some(i) => Some(i + 1)
  }

  /** The slots and the outcome an instruction leaves in memory. */
  function Execute(vs: seq<OfferVector>, e: Event<Op>): (seq<OfferVector>, Outcome)
  {
    match e.op
    case Add(_, _, _, _, _) =>
      var v := Requested(e.op, e.now);
      var valid := Validate(vs, v, e.now);
      if valid.Err? then (vs, valid)
      else if v.startTime == e.now == 0 then (vs, Err(ArithmeticPanic))
      else
        var cleaned := Cleaned(vs, v, e.now);
        (match FindIndex(cleaned, 0)
         case None => (cleaned, Err(TooManyVectors))
         case Some(i) => (cleaned[i := v], Ok(())))
    case Delete(start) =>
      if start <= e.now then (vs, Err(StartTimeInPast))
      else
        (match FindIndex(vs, start)
         case None => (vs, Err(VectorNotFound))
         case Some(i) => (vs[i := EMPTY], Ok(())))
    case DeleteAll => (AllDeleted(vs), Ok(()))
  }

  function AllDeleted(vs: seq<OfferVector>): (r: seq<OfferVector>)
    ensures |r| == |vs|
  {
    seq(|vs|, i requires 0 <= i < |vs| => if vs[i].startTime != 0 then EMPTY else vs[i])
  }

  /** A failed instruction is rolled back by the runtime. */
  function Process(vs: seq<OfferVector>, e: Event<Op>): (seq<OfferVector>, Outcome)
  {
    var (vs', outcome) := Execute(vs, e);
    (if outcome.Ok? then vs' else vs, outcome)
  }

  // ---------------------------------------------------------------- the account

  /** The offer account; only its vector slots matter here. */
  class Offer {
    const vectors: array<OfferVector>

    constructor ()
      ensures fresh(vectors) && vectors[..] == NoVectors()
    {
      vectors := new OfferVector[MAX_VECTORS](_ => EMPTY);
    }

    /** `add_offer_vector`. */
    method AddOfferVector(startTime: Option<u64>, baseTime: u64, basePrice: u64, apr: u64, fixDuration: u64, now: u64)
      returns (outcome: Outcome)
      modifies vectors
      ensures (vectors[..], outcome) == Execute(old(vectors[..]),
                                                Event(now, Add(startTime, baseTime, basePrice, apr, fixDuration)))
    {
      var v := Requested(Add(startTime, baseTime, basePrice, apr, fixDuration), now);
      outcome := Validate(vectors[..], v, now);
      if outcome.Err? {
        return;
      }
      outcome := CleanOldVectors(vectors, v, now);
      if outcome.Err? {
        return;
      }
      var slot := FindIndex(vectors[..], 0);
      if slot.None? {
        return Err(TooManyVectors);
      }
      vectors[slot.value] := v;
      return Ok(());
    }

    /** `delete_offer_vector`. */
    method DeleteOfferVector(start: u64, now: u64) returns (outcome: Outcome)
      modifies vectors
      ensures (vectors[..], outcome) == Execute(old(vectors[..]), Event(now, Delete(start)))
    {
      if start <= now {
        return Err(StartTimeInPast);
      }
      var slot := FindIndex(vectors[..], start);
      if slot.None? {
        return Err(VectorNotFound);
      }
      vectors[slot.value] := EMPTY;
      return Ok(());
    }

    /** `delete_all_offer_vectors`, with the number of vectors it reports. */
    method DeleteAllOfferVectors(ghost now: u64) returns (deleted: nat)
      modifies vectors
      ensures vectors[..] == Execute(old(vectors[..]), Event(now, DeleteAll)).0
      ensures deleted == Occupied(old(vectors[..]))
    {
      deleted := 0;
      ghost var before := vectors[..];
      for i := 0 to vectors.Length
        invariant forall j :: 0 <= j < i ==> vectors[j] == if before[j].startTime != 0 then EMPTY else before[j]
        invariant forall j :: i <= j < vectors.Length ==> vectors[j] == before[j]
        invariant deleted == Occupied(before[..i])
      {
        assert before[..i + 1][..i] == before[..i];
        if vectors[i].startTime != 0 {
          vectors[i] := EMPTY;
          deleted := deleted + 1;
        }
      }
      assert before[..vectors.Length] == before;
    }

    /** One instruction inside its transaction. */
    method ProcessEvent(e: Event<Op>) returns (outcome: Outcome)
      modifies vectors
      ensures (vectors[..], outcome) == Process(old(vectors[..]), e)
    {
      var saved := vectors[..];
      match e.op {
        case Add(startTime, baseTime, basePrice, apr, fixDuration) =>
          outcome := AddOfferVector(startTime, baseTime, basePrice, apr, fixDuration, e.now);
        case Delete(start) =>
          outcome := DeleteOfferVector(start, e.now);
        case DeleteAll =>
          var _ := DeleteAllOfferVectors(e.now);
          outcome := Ok(());
      }
      if outcome.Err? {
        forall i | 0 <= i < vectors.Length {
          vectors[i] := saved[i];
        }
        assert vectors[..] == saved;
      }
    }
  }

  function NoVectors(): seq<OfferVector>
  {
    seq(MAX_VECTORS, _ => EMPTY)
  }

  // ---------------------------------------------------------------- the log

  function CountStarted(log: seq<OfferVector>, now: int): nat
  {
    if log == [] then 0
    else CountStarted(log[..|log| - 1], now) + if log[|log| - 1].startTime <= now then 1 else 0
  }

  /** What a full offer keeps: everything in the future, the active vector and the one before it. */
  function Live(log: seq<OfferVector>, now: int): int
  {
    var started := CountStarted(log, now);
    |log| - started + if started < 2 then started else 2
  }

  /** The same instructions on an append-only log that forgets nothing but what is deleted. */
  function LogProcess(log: seq<OfferVector>, e: Event<Op>): (seq<OfferVector>, Outcome)
  {
    match e.op
    case Add(_, _, _, _, _) =>
      var v := Requested(e.op, e.now);
      var valid := Validate(log, v, e.now);
      if valid.Err? then (log, valid)
      else if v.startTime == e.now == 0 then (log, Err(ArithmeticPanic))
      else if Live(log, e.now) >= MAX_VECTORS then (log, Err(TooManyVectors))
      else (log + [v], Ok(()))
    case Delete(start) =>
      if start <= e.now then (log, Err(StartTimeInPast))
      else
        (match FindIndex(log, start)
         case None => (log, Err(VectorNotFound))
         case Some(i) => (log[..i] + log[i + 1..], Ok(())))
    case DeleteAll => ([], Ok(()))
  }

  // ---------------------------------------------------------------- counting slots

  /** Number of slots in use. */
  function Occupied(vs: seq<OfferVector>): nat
  {
    if vs == [] then 0
    else Occupied(vs[..|vs| - 1]) + if vs[|vs| - 1].startTime != 0 then 1 else 0
  }

  /** There is an empty slot exactly when not all are in use. */
  lemma {:induction false} OccupiedBound(vs: seq<OfferVector>)
    ensures Occupied(vs) <= |vs|
    ensures Occupied(vs) < |vs| <==> HasStart(vs, 0)
  {
    if vs == [] {
    } else {
      var init, last := vs[..|vs| - 1], |vs| - 1;
      OccupiedBound(init);
      if HasStart(init, 0) {
        var i :| 0 <= i < |init| && init[i].startTime == 0;
        assert vs[i].startTime == 0;
      }
      if HasStart(vs, 0) && vs[last].startTime != 0 {
        var i :| 0 <= i < |vs| && vs[i].startTime == 0;
        assert init[i].startTime == 0;
      }
    }
  }

  predicate DistinctStarts(vs: seq<OfferVector>)
  {
    forall i, j :: 0 <= i < j < |vs| && vs[i].startTime != 0 ==> vs[i].startTime != vs[j].startTime
  }

  ghost function Starts(vs: seq<OfferVector>): set<int>
  {
    set i | 0 <= i < |vs| && vs[i].startTime != 0 :: vs[i].startTime
  }

  lemma {:induction false} OccupiedIsDistinctStarts(vs: seq<OfferVector>)
    requires DistinctStarts(vs)
    ensures |Starts(vs)| == Occupied(vs)
  {
    if vs == [] {
      assert Starts(vs) == {};
    } else {
      var init, last := vs[..|vs| - 1], vs[|vs| - 1];
      assert vs == init + [last];
      StartsOfAppend(init, last);
      OccupiedIsDistinctStarts(init);
    }
  }

  lemma StartsOfAppend(init: seq<OfferVector>, last: OfferVector)
    requires DistinctStarts(init + [last])
    ensures DistinctStarts(init)
    ensures Starts(init + [last]) == if last.startTime != 0 then Starts(init) + {last.startTime} else Starts(init)
    ensures last.startTime !in Starts(init)
  {
    var vs := init + [last];
    assert forall i :: 0 <= i < |init| ==> vs[i] == init[i];
    assert vs[|init|] == last;
    forall start
      ensures start in Starts(vs) <==> start in Starts(init) || (last.startTime != 0 && start == last.startTime)
    {
      if start in Starts(init) {
        var i :| 0 <= i < |init| && init[i].startTime != 0 && init[i].startTime == start;
        assert vs[i].startTime == start;
      }
    }
  }

  ghost function LogStarts(log: seq<OfferVector>, cut: nat): set<int>
    requires cut <= |log|
  {
    set j | cut <= j < |log| :: log[j].startTime
  }

  lemma {:induction false} LogStartsSize(log: seq<OfferVector>, cut: nat)
    requires Chronological(log) && cut <= |log|
    ensures |LogStarts(log, cut)| == |log| - cut
    decreases |log| - cut
  {
    if cut == |log| {
      assert LogStarts(log, cut) == {};
    } else {
      LogStartsSize(log, cut + 1);
      assert LogStarts(log, cut) == {log[cut].startTime} + LogStarts(log, cut + 1);
    }
  }

  // ---------------------------------------------------------------- representation

  /** Positive starts in strictly increasing order. */
  predicate Chronological(log: seq<OfferVector>)
  {
    && (forall i :: 0 <= i < |log| ==> log[i].startTime > 0)
    && forall i, j :: 0 <= i < j < |log| ==> log[i].startTime < log[j].startTime
  }

  predicate Holds(vs: seq<OfferVector>, v: OfferVector)
  {
    v.startTime != 0 && v in vs
  }

  ghost predicate Logged(log: seq<OfferVector>, cut: nat, v: OfferVector)
  {
    exists j :: cut <= j < |log| && log[j] == v
  }

  /**
   * The slots hold exactly the log without its first `cut` vectors, each once; and once anything has been cut, two
   * vectors that have started are still held.
   */
  ghost predicate Represents(vs: seq<OfferVector>, log: seq<OfferVector>, now: int, cut: nat)
  {
    && |vs| == MAX_VECTORS && EmptySlotsBlank(vs) && DistinctStarts(vs)
    && Chronological(log) && cut <= |log|
    && (cut > 0 ==> cut + 1 < |log| && log[cut + 1].startTime <= now)
    && forall v :: Holds(vs, v) <==> Logged(log, cut, v)
  }

  lemma LogStartAt(log: seq<OfferVector>, time: int, m: nat)
    requires Chronological(log) && m < |log| && log[m].startTime <= time
    requires m + 1 < |log| ==> log[m + 1].startTime > time
    ensures FindActive(log, time) == Some(log[m]) && StartAt(log, time) == log[m].startTime
  {
    FindActiveCharacterised(log, time);
    forall j | m < j < |log|
      ensures !Started(log[j], time)
    {
      assert log[m + 1].startTime <= log[j].startTime;
    }
    assert IsLatestStarted(log, time, m);
  }

  lemma LogNothingStarted(log: seq<OfferVector>, time: int)
    requires Chronological(log) && (|log| > 0 ==> log[0].startTime > time)
    ensures FindActive(log, time).None? && StartAt(log, time) == 0
  {
    FindActiveCharacterised(log, time);
  }

  /** The started vectors are the first `CountStarted` of the log. */
  lemma {:induction false} StartedPrefix(log: seq<OfferVector>, now: int)
    requires Chronological(log)
    ensures CountStarted(log, now) <= |log|
    ensures forall i :: 0 <= i < |log| ==> (log[i].startTime <= now <==> i < CountStarted(log, now))
  {
    if log == [] {
    } else {
      var init, last := log[..|log| - 1], |log| - 1;
      StartedPrefix(init, now);
      forall i | 0 <= i < last
        ensures log[i].startTime <= now <==> i < CountStarted(init, now)
      {
        assert init[i] == log[i];
      }
    }
  }

  /** A start is stored exactly when it is logged from the cut on. */
  lemma SameStarts(vs: seq<OfferVector>, log: seq<OfferVector>, now: int, cut: nat, start: int)
    requires Represents(vs, log, now, cut) && start > 0
    ensures HasStart(vs, start) <==> exists j :: cut <= j < |log| && log[j].startTime == start
    ensures HasStart(vs, start) ==> HasStart(log, start)
  {
    if HasStart(vs, start) {
      var i :| 0 <= i < |vs| && vs[i].startTime == start;
      assert Holds(vs, vs[i]);
      assert Logged(log, cut, vs[i]);
    }
    if j :| cut <= j < |log| && log[j].startTime == start {
      assert Logged(log, cut, log[j]);
      assert Holds(vs, log[j]);
    }
  }

  /** Slots in use. */
  lemma OccupiedByLog(vs: seq<OfferVector>, log: seq<OfferVector>, cut: nat)
    requires DistinctStarts(vs) && Chronological(log) && cut <= |log|
    requires forall v :: Holds(vs, v) <==> Logged(log, cut, v)
    ensures Occupied(vs) == |log| - cut
  {
    OccupiedIsDistinctStarts(vs);
    LogStartsSize(log, cut);
    forall start
      ensures start in Starts(vs) <==> start in LogStarts(log, cut)
    {
      if start in Starts(vs) {
        var i :| 0 <= i < |vs| && vs[i].startTime != 0 && vs[i].startTime == start;
        assert Holds(vs, vs[i]);
        assert Logged(log, cut, vs[i]);
      }
      if start in LogStarts(log, cut) {
        var j :| cut <= j < |log| && log[j].startTime == start;
        assert Logged(log, cut, log[j]);
        assert Holds(vs, log[j]);
      }
    }
    assert Starts(vs) == LogStarts(log, cut);
  }

  /** Lookups agree wherever the log's answer has not been cut. */
  lemma SameLookup(vs: seq<OfferVector>, log: seq<OfferVector>, now: int, cut: nat, time: int)
    requires Represents(vs, log, now, cut)
    requires cut > 0 ==> log[cut].startTime <= time
    ensures FindActive(vs, time) == FindActive(log, time)
  {
    var start := StartAt(log, time);
    StartAtIsLatest(log, time);
    StartAtIsLatest(vs, time);
    if start > 0 {
      if cut > 0 {
        assert HasStart(log, log[cut].startTime);
      }
      SameStarts(vs, log, now, cut, start);
    }
    forall s | HasStart(vs, s) && 0 < s <= time
      ensures s <= start
    {
      SameStarts(vs, log, now, cut, s);
    }
    StartAtUnique(vs, time, start);
    if start > 0 {
      FindActiveStored(vs, time);
      FindActiveStored(log, time);
      assert Holds(vs, FindActive(vs, time).value);
      SameStartSameVector(log, cut, FindActive(vs, time).value, FindActive(log, time).value);
    }
  }

  lemma FindActiveStored(vs: seq<OfferVector>, time: int)
    requires FindActive(vs, time).Some?
    ensures FindActive(vs, time).value in vs && FindActive(vs, time).value.startTime != 0
  {
    FindActiveCharacterised(vs, time);
  }

  lemma SameStartSameVector(log: seq<OfferVector>, cut: nat, v: OfferVector, w: OfferVector)
    requires Chronological(log) && Logged(log, cut, v) && w in log && v.startTime == w.startTime
    ensures v == w
  {
  }

  lemma {:induction false} LatestStartIsMaximum(vs: seq<OfferVector>)
    ensures forall i :: 0 <= i < |vs| ==> vs[i].startTime <= LatestStart(vs)
    ensures LatestStart(vs) == 0 || HasStart(vs, LatestStart(vs))
  {
    if vs == [] {
    } else {
      var init, last := vs[..|vs| - 1], |vs| - 1;
      LatestStartIsMaximum(init);
      assert forall i :: 0 <= i < last ==> vs[i] == init[i];
      if LatestStart(vs) == LatestStart(init) && LatestStart(init) > 0 {
        var i :| 0 <= i < |init| && init[i].startTime == LatestStart(init);
        assert vs[i].startTime == LatestStart(vs);
      }
    }
  }

  lemma SameLatest(vs: seq<OfferVector>, log: seq<OfferVector>, clock: int, cut: nat)
    requires Represents(vs, log, clock, cut)
    ensures LatestStart(vs) == LatestStart(log)
  {
    LatestStartIsMaximum(vs);
    LatestStartIsMaximum(log);
    if |log| > 0 {
      assert LatestStart(log) == log[|log| - 1].startTime;
      SameStarts(vs, log, clock, cut, LatestStart(log));
    }
    if LatestStart(vs) > 0 {
      SameStarts(vs, log, clock, cut, LatestStart(vs));
    }
  }

  /** Validation cannot tell the slots from the log. */
  lemma SameValidation(vs: seq<OfferVector>, log: seq<OfferVector>, clock: int, cut: nat, v: OfferVector, now: u64)
    requires Represents(vs, log, clock, cut) && clock <= now
    ensures Validate(vs, v, now) == Validate(log, v, now)
  {
    SameLatest(vs, log, clock, cut);
    if v.startTime >= now && v.startTime > 0 {
      SameStarts(vs, log, clock, cut, v.startTime);
      assert forall j :: 0 <= j < cut ==> log[j].startTime < log[cut + 1].startTime;
    }
  }

  /** Index of the first log vector that survives collection while `v` is added at `now`. */
  function NextCut(log: seq<OfferVector>, v: OfferVector, now: u64): nat
  {
    var started := CountStarted(log, now) + if v.startTime == now then 1 else 0;
    if started < 2 then 0 else started - 2
  }

  /** Collection on the slots cuts the log at `NextCut`. */
  lemma CutoffOfLog(vs: seq<OfferVector>, log: seq<OfferVector>, clock: int, cut: nat, v: OfferVector, now: u64)
    requires Represents(vs, log, clock, cut) && clock <= now && Validate(log, v, now).Ok? && v.startTime > 0
    ensures cut <= NextCut(log, v, now) <= |log|
    ensures var next := NextCut(log, v, now);
      if next == |log| then log == [] && Cutoff(vs, v, now) == 0
      else Cutoff(vs, v, now) == log[next].startTime || (next == cut == 0 && Cutoff(vs, v, now) == 0)
  {
    var n := CountStarted(log, now);
    StartedPrefix(log, now);
    LatestStartIsMaximum(log);
    assert |log| > 0 ==> LatestStart(log) >= log[0].startTime > 0;
    assert forall i :: 0 <= i < |log| ==> log[i].startTime < v.startTime;
    assert cut > 0 ==> cut + 1 < n;
    SameLookup(vs, log, clock, cut, now);
    if v.startTime == now {
      assert n == |log|;
      if n > 0 {
        LogStartAt(log, now - 1, n - 1);
        SameLookup(vs, log, clock, cut, now - 1);
      } else {
        LogNothingStarted(log, now - 1);
        SameLookup(vs, log, clock, cut, now - 1);
      }
    } else if n > 0 {
      LogStartAt(log, now, n - 1);
      var before := log[n - 1].startTime - 1;
      if n > 1 {
        LogStartAt(log, before, n - 2);
        SameLookup(vs, log, clock, cut, before);
      } else {
        LogNothingStarted(log, before);
        SameLookup(vs, log, clock, cut, before);
      }
    } else {
      LogNothingStarted(log, now);
    }
  }

  /** Collection keeps the representation, at the later cut. */
  lemma CleanedRepresents(vs: seq<OfferVector>, log: seq<OfferVector>, clock: int, cut: nat, v: OfferVector, now: u64)
    requires Represents(vs, log, clock, cut) && clock <= now && Validate(log, v, now).Ok? && v.startTime > 0
    ensures var cleaned, next := Cleaned(vs, v, now), NextCut(log, v, now);
      && next <= |log| && EmptySlotsBlank(cleaned) && DistinctStarts(cleaned)
      && forall x :: Holds(cleaned, x) <==> Logged(log, next, x)
  {
    var next, cutoff := NextCut(log, v, now), Cutoff(vs, v, now);
    CleaningIsACut(vs, v, now);
    CutoffOfLog(vs, log, clock, cut, v, now);
    forall x: OfferVector
      ensures Holds(Cleaned(vs, v, now), x) <==> Logged(log, next, x)
    {
      HoldsAfterCut(vs, cutoff, x);
      LoggedAfterCut(log, cut, next, cutoff, x);
      assert Holds(vs, x) <==> Logged(log, cut, x);
    }
  }

  lemma HoldsAfterCut(vs: seq<OfferVector>, cutoff: u64, x: OfferVector)
    ensures Holds(DropBefore(vs, cutoff), x) <==> Holds(vs, x) && x.startTime >= cutoff
  {
    var kept := DropBefore(vs, cutoff);
    if Holds(kept, x) {
      var i :| 0 <= i < |kept| && kept[i] == x;
      assert vs[i] == x;
    }
    if Holds(vs, x) && x.startTime >= cutoff {
      var i :| 0 <= i < |vs| && vs[i] == x;
      assert kept[i] == x;
    }
  }

  lemma LoggedAfterCut(log: seq<OfferVector>, cut: nat, next: nat, cutoff: u64, x: OfferVector)
    requires Chronological(log) && cut <= next <= |log|
    requires if next == |log| then log == [] && cutoff == 0 else
      cutoff == log[next].startTime || (next == cut == 0 && cutoff == 0)
    ensures Logged(log, next, x) <==> Logged(log, cut, x) && x.startTime >= cutoff
  {
  }

  /** The slot count seen by the search for an empty slot is the log's live count. */
  lemma LiveCount(log: seq<OfferVector>, v: OfferVector, now: u64)
    requires Chronological(log) && Validate(log, v, now).Ok? && v.startTime > 0
    ensures NextCut(log, v, now) <= |log|
    ensures |log| - NextCut(log, v, now) < MAX_VECTORS <==> Live(log, now) < MAX_VECTORS
  {
    StartedPrefix(log, now);
    LatestStartIsMaximum(log);
    if |log| > 0 {
      assert log[0].startTime <= LatestStart(log);
      assert log[|log| - 1].startTime < v.startTime;
    }
  }

  // ---------------------------------------------------------------- simulation

  lemma AddSimulates(vs: seq<OfferVector>, log: seq<OfferVector>, clock: int, cut: nat, e: Event<Op>)
    returns (cut': nat)
    requires Represents(vs, log, clock, cut) && clock <= e.now && e.op.Add?
    ensures Process(vs, e).1 == LogProcess(log, e).1
    ensures Represents(Process(vs, e).0, LogProcess(log, e).0, e.now, cut')
  {
    var v := Requested(e.op, e.now);
    cut' := cut;
    SameValidation(vs, log, clock, cut, v, e.now);
    if Validate(log, v, e.now).Ok? && v.startTime > 0 {
      var cleaned := Cleaned(vs, v, e.now);
      SearchMatchesLive(vs, log, clock, cut, v, e.now);
      var slot := FindIndex(cleaned, 0);
      if slot.Some? {
        AddedRepresents(vs, log, clock, cut, v, e.now, slot.value);
        cut' := NextCut(log, v, e.now);
      }
    }
  }

  /** After collection a slot is free exactly when the live part of the log leaves room. */
  lemma SearchMatchesLive(vs: seq<OfferVector>, log: seq<OfferVector>, clock: int, cut: nat, v: OfferVector, now: u64)
    requires Represents(vs, log, clock, cut) && clock <= now && Validate(log, v, now).Ok? && v.startTime > 0
    ensures FindIndex(Cleaned(vs, v, now), 0).Some? <==> Live(log, now) < MAX_VECTORS
  {
    var cleaned, next := Cleaned(vs, v, now), NextCut(log, v, now);
    CleanedRepresents(vs, log, clock, cut, v, now);
    LiveCount(log, v, now);
    OccupiedByLog(cleaned, log, next);
    OccupiedBound(cleaned);
  }

  lemma AddedRepresents(vs: seq<OfferVector>, log: seq<OfferVector>, clock: int, cut: nat, v: OfferVector, now: u64,
                        slot: nat)
    requires Represents(vs, log, clock, cut) && clock <= now && Validate(log, v, now).Ok? && v.startTime > 0
    requires slot < |vs| && Cleaned(vs, v, now)[slot].startTime == 0
    ensures Represents(Cleaned(vs, v, now)[slot := v], log + [v], now, NextCut(log, v, now))
  {
    var next, cleaned := NextCut(log, v, now), Cleaned(vs, v, now);
    CleanedRepresents(vs, log, clock, cut, v, now);
    AppendChronological(log, v, now);
    HeldStartsBelow(cleaned, log, next, v);
    forall x
      ensures Holds(cleaned[slot := v], x) <==> Logged(log + [v], next, x)
    {
      HoldsAfterUpdate(cleaned, slot, v, x);
      LoggedAfterAppend(log, next, v, x);
      assert Holds(cleaned, x) <==> Logged(log, next, x);
    }
  }

  lemma HoldsAfterUpdate(vs: seq<OfferVector>, slot: nat, v: OfferVector, x: OfferVector)
    requires slot < |vs| && vs[slot].startTime == 0
    ensures Holds(vs[slot := v], x) <==> Holds(vs, x) || (x == v && v.startTime != 0)
  {
    if x in vs && x.startTime != 0 {
      var i :| 0 <= i < |vs| && vs[i] == x;
      assert vs[slot := v][i] == x;
    }
    assert vs[slot := v][slot] == v;
  }

  lemma LoggedAfterAppend(log: seq<OfferVector>, next: nat, v: OfferVector, x: OfferVector)
    requires next <= |log|
    ensures Logged(log + [v], next, x) <==> Logged(log, next, x) || x == v
  {
    assert (log + [v])[|log|] == v;
    if Logged(log, next, x) {
      var j :| next <= j < |log| && log[j] == x;
      assert (log + [v])[j] == x;
    }
  }

  lemma HeldStartsBelow(vs: seq<OfferVector>, log: seq<OfferVector>, next: nat, v: OfferVector)
    requires Chronological(log + [v]) && forall x :: Holds(vs, x) <==> Logged(log, next, x)
    ensures forall i :: 0 <= i < |vs| ==> vs[i].startTime < v.startTime
  {
    forall i | 0 <= i < |vs|
      ensures vs[i].startTime < v.startTime
    {
      assert (log + [v])[|log|] == v;
      if vs[i].startTime != 0 {
        assert Holds(vs, vs[i]);
        var j :| next <= j < |log| && log[j] == vs[i];
        assert (log + [v])[j] == vs[i];
      }
    }
  }

  lemma AppendChronological(log: seq<OfferVector>, v: OfferVector, now: u64)
    requires Chronological(log) && Validate(log, v, now).Ok? && v.startTime > 0
    ensures Chronological(log + [v])
    ensures var next := NextCut(log, v, now);
      next > 0 ==> next + 1 < |log + [v]| && (log + [v])[next + 1].startTime <= now
  {
    LatestStartIsMaximum(log);
    StartedPrefix(log, now);
    if |log| > 0 {
      assert log[0].startTime <= LatestStart(log);
    }
    assert forall i :: 0 <= i < |log| ==> log[i].startTime < v.startTime;
  }

  lemma DeleteSimulates(vs: seq<OfferVector>, log: seq<OfferVector>, clock: int, cut: nat, e: Event<Op>)
    requires Represents(vs, log, clock, cut) && clock <= e.now && e.op.Delete?
    ensures Process(vs, e).1 == LogProcess(log, e).1
    ensures Represents(Process(vs, e).0, LogProcess(log, e).0, e.now, cut)
  {
    var start := e.op.start;
    if start > e.now {
      SameStarts(vs, log, clock, cut, start);
      assert forall j :: 0 <= j < cut ==> log[j].startTime < log[cut + 1].startTime;
      var slot, entry := FindIndex(vs, start), FindIndex(log, start);
      if entry.Some? {
        DeletedRepresents(vs, log, clock, cut, e.now, slot.value, entry.value);
      }
    }
  }

  /** Deleting a future vector from its slot and from the log. */
  lemma DeletedRepresents(vs: seq<OfferVector>, log: seq<OfferVector>, clock: int, cut: nat, now: u64, i: nat, j: nat)
    requires Represents(vs, log, clock, cut) && clock <= now
    requires i < |vs| && j < |log| && vs[i].startTime == log[j].startTime > now
    ensures Represents(vs[i := EMPTY], log[..j] + log[j + 1..], now, cut)
  {
    var log' := log[..j] + log[j + 1..];
    assert Holds(vs, vs[i]);
    SameStartSameVector(log, cut, vs[i], log[j]);
    assert forall k :: 0 <= k < cut ==> log[k].startTime < log[cut + 1].startTime;
    forall x
      ensures Holds(vs[i := EMPTY], x) <==> Logged(log', cut, x)
    {
      HoldsAfterClear(vs, i, x);
      LoggedAfterRemoval(log, cut, j, x);
      assert Holds(vs, x) <==> Logged(log, cut, x);
    }
  }

  lemma HoldsAfterClear(vs: seq<OfferVector>, i: nat, x: OfferVector)
    requires i < |vs| && vs[i].startTime != 0 && DistinctStarts(vs)
    ensures Holds(vs[i := EMPTY], x) <==> Holds(vs, x) && x != vs[i]
  {
    if x in vs && x.startTime != 0 && x != vs[i] {
      var k :| 0 <= k < |vs| && vs[k] == x;
      assert vs[i := EMPTY][k] == x;
    }
  }

  lemma LoggedAfterRemoval(log: seq<OfferVector>, cut: nat, j: nat, x: OfferVector)
    requires Chronological(log) && cut <= j < |log|
    ensures Logged(log[..j] + log[j + 1..], cut, x) <==> Logged(log, cut, x) && x != log[j]
  {
    var log' := log[..j] + log[j + 1..];
    if Logged(log', cut, x) {
      var k :| cut <= k < |log'| && log'[k] == x;
      assert log[if k < j then k else k + 1] == x;
    }
    if Logged(log, cut, x) && x != log[j] {
      var k :| cut <= k < |log| && log[k] == x;
      assert log'[if k < j then k else k - 1] == x;
    }
  }

  lemma StepSimulates(vs: seq<OfferVector>, log: seq<OfferVector>, clock: int, cut: nat, e: Event<Op>)
    returns (cut': nat)
    requires Represents(vs, log, clock, cut) && clock <= e.now
    ensures Process(vs, e).1 == LogProcess(log, e).1
    ensures Represents(Process(vs, e).0, LogProcess(log, e).0, e.now, cut')
  {
    match e.op {
      case Add(_, _, _, _, _) =>
        cut' := AddSimulates(vs, log, clock, cut, e);
      case Delete(_) =>
        DeleteSimulates(vs, log, clock, cut, e);
        cut' := cut;
      case DeleteAll =>
        assert forall v :: !Holds(AllDeleted(vs), v) && !Logged([], 0, v);
        cut' := 0;
    }
  }

  // ---------------------------------------------------------------- runs

  /** Slots after a run and the outcome of every instruction. */
  function Run(vs: seq<OfferVector>, events: seq<Event<Op>>): (seq<OfferVector>, seq<Outcome>)
  {
    if events == [] then (vs, [])
    else
      var (before, outcomes) := Run(vs, events[..|events| - 1]);
      var (after, outcome) := Process(before, events[|events| - 1]);
      (after, outcomes + [outcome])
  }

  function LogRun(log: seq<OfferVector>, events: seq<Event<Op>>): (seq<OfferVector>, seq<Outcome>)
  {
    if events == [] then (log, [])
    else
      var (before, outcomes) := LogRun(log, events[..|events| - 1]);
      var (after, outcome) := LogProcess(before, events[|events| - 1]);
      (after, outcomes + [outcome])
  }

  /** The clock never goes back. */
  predicate ClockAdvances<A>(events: seq<Event<A>>)
  {
    forall i, j :: 0 <= i < j < |events| ==> events[i].now <= events[j].now
  }

  function Clock<A>(events: seq<Event<A>>): u64
  {
    if events == [] then 0 else events[|events| - 1].now
  }

  lemma {:induction false} RunSimulates(events: seq<Event<Op>>) returns (cut: nat)
    requires ClockAdvances(events)
    ensures Run(NoVectors(), events).1 == LogRun([], events).1
    ensures Represents(Run(NoVectors(), events).0, LogRun([], events).0, Clock(events), cut)
  {
    if events == [] {
      cut := 0;
      assert forall v :: !Holds(NoVectors(), v) && !Logged([], 0, v);
    } else {
      var init := events[..|events| - 1];
      cut := RunSimulates(init);
      cut := StepSimulates(Run(NoVectors(), init).0, LogRun([], init).0, Clock(init), cut, events[|events| - 1]);
    }
  }

  /** The active vector and the one before it are found in the slots as in the log. */
  lemma LookupsAgree(vs: seq<OfferVector>, log: seq<OfferVector>, clock: int, cut: nat, time: u64)
    requires Represents(vs, log, clock, cut) && clock <= time
    ensures FindActive(vs, time) == FindActive(log, time)
    ensures FindActive(log, time).Some? ==>
      var before := FindActive(log, time).value.startTime - 1;
      FindActive(vs, before) == FindActive(log, before)
  {
    SameLookup(vs, log, clock, cut, time);
    if FindActive(log, time).Some? {
      StartAtIsLatest(log, time);
      if cut > 0 {
        assert HasStart(log, log[cut + 1].startTime);
        assert log[cut].startTime <= StartAt(log, time) - 1;
      }
      SameLookup(vs, log, clock, cut, StartAt(log, time) - 1);
    }
  }

  /**
   * For every run of additions and deletions with a clock that never goes back, the ten collected slots are
   * indistinguishable from the unbounded log: each instruction has the same outcome, and from now on every lookup
   * finds the same active vector and the same vector before it.
   */
  lemma OfferRefinesLog(events: seq<Event<Op>>, time: u64)
    requires ClockAdvances(events) && Clock(events) <= time
    ensures Run(NoVectors(), events).1 == LogRun([], events).1
    ensures var vs, log := Run(NoVectors(), events).0, LogRun([], events).0;
      && FindActive(vs, time) == FindActive(log, time)
      && (FindActive(log, time).Some? ==>
            var before := FindActive(log, time).value.startTime - 1;
            FindActive(vs, before) == FindActive(log, before))
  {
    var cut := RunSimulates(events);
    LookupsAgree(Run(NoVectors(), events).0, LogRun([], events).0, Clock(events), cut, time);
  }

  // ---------------------------------------------------------------- what an addition does

  /**
   * Every outcome of an addition that starts at `s`, in the order of the checks; the last refusal is for an eleventh
   * vector, when eight of ten or more logged ones lie in the future and two more are needed for the lookups. What is
   * appended holds the arguments as given.
   */
  lemma AdditionOutcome(log: seq<OfferVector>, startTime: Option<u64>, baseTime: u64, basePrice: u64, apr: u64,
                        fixDuration: u64, now: u64, s: u64)
    requires Chronological(log)
    requires s == if startTime.Some? then startTime.value else if now > baseTime then now else baseTime
    ensures LogProcess(log, Event(now, Add(startTime, baseTime, basePrice, apr, fixDuration))) ==
      if s < now then (log, Err(StartTimeInPast))
      else if baseTime == 0 || basePrice == 0 || fixDuration == 0 then (log, Err(ZeroValue))
      else if s > 0 && exists i :: 0 <= i < |log| && log[i].startTime == s then (log, Err(DuplicateStartTime))
      else if exists i :: 0 <= i < |log| && log[i].startTime > s then (log, Err(InvalidTimeRange))
      else if s == now == 0 then (log, Err(ArithmeticPanic))
      else if |log| >= 10 && log[|log| - 8].startTime > now then (log, Err(TooManyVectors))
      else (log + [OfferVector(s, baseTime, basePrice, apr, fixDuration)], Ok(()))
  {
    var v := Requested(Add(startTime, baseTime, basePrice, apr, fixDuration), now);
    LatestStartIsMaximum(log);
    LiveFillsSlots(log, now);
    if |log| > 0 {
      assert LatestStart(log) >= log[0].startTime > 0;
    }
    assert HasStart(log, s) <==> exists i :: 0 <= i < |log| && log[i].startTime == s;
    if HasStart(log, LatestStart(log)) && LatestStart(log) > s {
      var i :| 0 <= i < |log| && log[i].startTime == LatestStart(log);
      assert log[i].startTime > s;
    }
  }

  lemma LiveFillsSlots(log: seq<OfferVector>, now: int)
    requires Chronological(log)
    ensures Live(log, now) >= MAX_VECTORS <==> |log| >= 10 && log[|log| - 8].startTime > now
  {
    StartedPrefix(log, now);
  }

  /**
   * The same in every reachable state of the ten slots: the outcome is the log's; after a success the slots hold the
   * vector with the arguments as given, and it is what a lookup at its start finds.
   */
  lemma AdditionStored(events: seq<Event<Op>>, startTime: Option<u64>, baseTime: u64, basePrice: u64, apr: u64,
                       fixDuration: u64, now: u64, s: u64)
    requires ClockAdvances(events) && Clock(events) <= now
    requires s == if startTime.Some? then startTime.value else if now > baseTime then now else baseTime
    ensures var vs, log := Run(NoVectors(), events).0, LogRun([], events).0;
      var e, v := Event(now, Add(startTime, baseTime, basePrice, apr, fixDuration)),
                  OfferVector(s, baseTime, basePrice, apr, fixDuration);
      && Chronological(log) && Process(vs, e).1 == LogProcess(log, e).1
      && (Process(vs, e).1.Ok? ==> v in Process(vs, e).0 && FindActive(Process(vs, e).0, s) == Some(v))
      && (Process(vs, e).1.Err? ==> Process(vs, e).0 == vs)
  {
    var vs, log := Run(NoVectors(), events).0, LogRun([], events).0;
    var e := Event(now, Add(startTime, baseTime, basePrice, apr, fixDuration));
    var cut := RunSimulates(events);
    AdditionOutcome(log, startTime, baseTime, basePrice, apr, fixDuration, now, s);
    var cut' := StepSimulates(vs, log, Clock(events), cut, e);
    if Process(vs, e).1.Ok? {
      LastFound(Process(vs, e).0, LogProcess(log, e).0, now, cut', s);
    }
  }

  /** The last vector of the log is found in the slots. */
  lemma LastFound(vs: seq<OfferVector>, log: seq<OfferVector>, now: u64, cut: nat, s: u64)
    requires Represents(vs, log, now, cut) && |log| > 0 && log[|log| - 1].startTime == s >= now
    ensures log[|log| - 1] in vs && FindActive(vs, s) == Some(log[|log| - 1])
  {
    LogStartAt(log, s, |log| - 1);
    SameLookup(vs, log, now, cut, s);
    FindActiveStored(vs, s);
  }

  /**
   * Deleting on any slots with different starts: only a vector that lies strictly in the future and is stored goes, and
   * no other slot changes. Deleting all leaves nothing.
   */
  lemma DeletionOutcome(vs: seq<OfferVector>, start: u64, now: u64)
    requires EmptySlotsBlank(vs) && DistinctStarts(vs)
    ensures var (vs', r) := Process(vs, Event(now, Delete(start)));
      && r == (if start <= now then Err(StartTimeInPast)
               else if forall i :: 0 <= i < |vs| ==> vs[i].startTime != start then Err(VectorNotFound)
               else Ok(()))
      && |vs'| == |vs|
      && forall i :: 0 <= i < |vs| ==>
           vs'[i] == if r.Ok? && vs[i].startTime == start then OfferVector(0, 0, 0, 0, 0) else vs[i]
    ensures var (vs', r) := Process(vs, Event(now, DeleteAll));
      r == Ok(()) && |vs'| == |vs| && forall i :: 0 <= i < |vs| ==> vs'[i] == OfferVector(0, 0, 0, 0, 0)
  {
    assert HasStart(vs, start) <==> exists i :: 0 <= i < |vs| && vs[i].startTime == start;
  }

  /**
   * Capacity in every reachable state: a valid addition is refused exactly when the future vectors, the active one and
   * the one before it already fill the ten slots; so never while at most seven stored vectors lie in the future.
   */
  lemma CapacityOfReachableOffers(events: seq<Event<Op>>, e: Event<Op>)
    requires ClockAdvances(events + [e]) && e.op.Add?
    requires Validate(Run(NoVectors(), events).0, Requested(e.op, e.now), e.now).Ok?
      && Requested(e.op, e.now).startTime > 0
    ensures var vs, log := Run(NoVectors(), events).0, LogRun([], events).0;
      && (Process(vs, e).1 == Err(TooManyVectors) <==> Live(log, e.now) >= MAX_VECTORS)
      && (Process(vs, e).1.Ok? <==> Live(log, e.now) < MAX_VECTORS)
      && (|log| - CountStarted(log, e.now) <= 7 ==> Process(vs, e).1.Ok?)
  {
    assert forall i :: 0 <= i < |events| ==> (events + [e])[i] == events[i];
    assert ClockAdvances(events);
    assert (events + [e])[|events|] == e;
    var cut := RunSimulates(events);
    var vs, log := Run(NoVectors(), events).0, LogRun([], events).0;
    assert Clock(events) <= e.now;
    SameValidation(vs, log, Clock(events), cut, Requested(e.op, e.now), e.now);
    cut := StepSimulates(vs, log, Clock(events), cut, e);
  }
}
