/** Daily-compounded step price of a pricing vector (programs/onreapp/src/instructions/offer/offer_utils.rs). */
module VectorPricing {
  import opened Common
  import opened FixedPoint

  const INT_SCALE := 1_000_000_000_000_000_000
  const SECONDS_IN_DAY := 86_400
  const APR_SCALE := 1_000_000

  datatype PriceError = NoActiveVector | Overflow | Panic

  /** One day's growth factor, `1 + apr / (APR_SCALE * 365)`; no 64-bit rate overflows it. */
  function DailyFactor(apr: u64): (f: u128)
    ensures f >= INT_SCALE
    ensures apr == 0 ==> f == INT_SCALE
  {
    var increment := Rounded(INT_SCALE, apr, APR_SCALE * 365);
    DivMonotone(INT_SCALE * apr + APR_SCALE * 365 / 2, INT_SCALE * U64_MAX + APR_SCALE * 365 / 2, APR_SCALE * 365);
    DivAtLeast(INT_SCALE * apr + APR_SCALE * 365 / 2, APR_SCALE * 365, 0);
    INT_SCALE + increment
  }

  /** A rate counts in parts per million a year of 365 days; a factor has eighteen decimals. */
  lemma DailyFactorExact(apr: u64, increment: nat)
    ensures DailyFactor(apr) == 1_000_000_000_000_000_000 + increment
       <==> Nearest(1_000_000_000_000_000_000, apr, 365_000_000, increment)
  {
    RoundedIsNearest(INT_SCALE, apr, 365_000_000, increment);
  }

  /** Second half of `calculate_vector_price`: a straight line from one day's price towards the next. */
  function Interpolate(dayPrice: u128, factor: u128, seconds: nat): Result<u64, PriceError>
    requires seconds < SECONDS_IN_DAY
  {
    if seconds == 0 then
      if dayPrice > U64_MAX then Err(Overflow) else Ok(dayPrice)
    else
      match MulDivRound(dayPrice, factor, INT_SCALE)
      case None => Err(Overflow)
      case Some(nextPrice) =>
        if nextPrice < dayPrice then Err(Overflow)
        else
          match MulDivRound(nextPrice - dayPrice, seconds, SECONDS_IN_DAY)
          case None => Err(Overflow)
          case Some(part) =>
            if dayPrice + part > U64_MAX then Err(Overflow) else Ok(dayPrice + part)
  }

  /** `calculate_vector_price`. */
  function VectorPrice(apr: u64, basePrice: u64, elapsed: u64): Result<u64, PriceError>
  {
    if apr == 0 || elapsed == 0 then Ok(basePrice)
    else
      match PowerChecked(INT_SCALE, DailyFactor(apr), elapsed / SECONDS_IN_DAY, INT_SCALE)
      case None => Err(Overflow)
      case Some(growth) =>
        match MulDivRound(basePrice, growth, INT_SCALE)
        case None => Err(Overflow)
        case Some(dayPrice) => Interpolate(dayPrice, DailyFactor(apr), elapsed % SECONDS_IN_DAY)
  }

  /** `calculate_step_price_at`: the price of the whole step is the one at its end. */
  function StepPriceAt(apr: u64, basePrice: u64, baseTime: u64, fixDuration: u64, time: u64): Result<u64, PriceError>
  {
    if baseTime > time then Err(NoActiveVector)
    else if fixDuration == 0 then Err(Panic)
    else
      var step := (time - baseTime) / fixDuration;
      if step + 1 > U64_MAX then Err(Overflow)
      else if (step + 1) * fixDuration > U64_MAX then Err(Overflow)
      else
        DivAtLeast(time - baseTime, fixDuration, 0);
        MulMonotone(0, step + 1, 0, fixDuration);
        VectorPrice(apr, basePrice, (step + 1) * fixDuration)
  }

  // ---------------------------------------------------------------- unbounded meaning

  /** Growth over `n` whole days. */
  function Growth(apr: u64, n: nat): nat
  {
    Power(INT_SCALE, DailyFactor(apr), n, INT_SCALE)
  }

  /** Price at the start of day `n`. */
  function DayStart(apr: u64, basePrice: u64, n: nat): nat
  {
    Rounded(basePrice, Growth(apr, n), INT_SCALE)
  }

  /** What the interpolation on day `n` heads for. */
  function DayTarget(apr: u64, basePrice: u64, n: nat): nat
  {
    Rounded(DayStart(apr, basePrice, n), DailyFactor(apr), INT_SCALE)
  }

  lemma TargetAboveStart(apr: u64, basePrice: u64, n: nat)
    ensures DayTarget(apr, basePrice, n) >= DayStart(apr, basePrice, n)
  {
    RoundedGrows(DayStart(apr, basePrice, n), DailyFactor(apr), INT_SCALE);
  }

  /** The price `seconds` into a day that goes from `start` to `target`. */
  function Line(start: nat, target: nat, seconds: nat): nat
    requires start <= target
  {
    start + Rounded(target - start, seconds, SECONDS_IN_DAY)
  }

  /** The price at any second, before the final range checks. */
  function UnboundedPrice(apr: u64, basePrice: u64, elapsed: nat): nat
  {
    var n := elapsed / SECONDS_IN_DAY;
    TargetAboveStart(apr, basePrice, n);
    Line(DayStart(apr, basePrice, n), DayTarget(apr, basePrice, n), elapsed % SECONDS_IN_DAY)
  }

  /**
   * The price `s` seconds into day `n`, of 86400 seconds: `start` is the base price times the growth of `n` days,
   * `target` what one more day's factor makes of it, and the price is on the line between, each to the nearest unit.
   */
  lemma PriceOnDay(apr: u64, basePrice: u64, n: nat, s: nat, start: nat, target: nat, part: nat)
    requires s < 86_400 && start <= target
    requires Nearest(basePrice, Growth(apr, n), 1_000_000_000_000_000_000, start)
    requires Nearest(start, DailyFactor(apr), 1_000_000_000_000_000_000, target)
    requires Nearest(target - start, s, 86_400, part)
    ensures UnboundedPrice(apr, basePrice, n * 86_400 + s) == start + part
  {
    RoundedIsNearest(basePrice, Growth(apr, n), INT_SCALE, start);
    RoundedIsNearest(start, DailyFactor(apr), INT_SCALE, target);
    RoundedIsNearest(target - start, s, SECONDS_IN_DAY, part);
    DivUnique(n * 86_400 + s, 86_400, n);
  }

  /** A day's line starts at `start`, never falls, and never passes `target`. */
  lemma LineShape(start: nat, target: nat, s: nat, s': nat)
    requires start <= target && s <= s' <= SECONDS_IN_DAY
    ensures start <= Line(start, target, s) <= Line(start, target, s') <= target
    ensures Line(start, target, 0) == start
  {
    var delta := target - start;
    RoundedMonotone(delta, 0, delta, s, SECONDS_IN_DAY);
    RoundedMonotone(delta, s, delta, s', SECONDS_IN_DAY);
    RoundedMonotone(delta, s', delta, SECONDS_IN_DAY, SECONDS_IN_DAY);
    RoundedUnit(delta, SECONDS_IN_DAY);
    assert delta * 0 == 0;
  }

  /** In its last second a day's line is short of `target` by one second's growth, rounded with halves down. */
  lemma LineAtLastSecond(start: nat, target: nat)
    requires start <= target
    ensures Line(start, target, SECONDS_IN_DAY - 1)
      == target - (target - start + SECONDS_IN_DAY / 2 - 1) / SECONDS_IN_DAY
  {
    var delta := target - start;
    var q := (delta + SECONDS_IN_DAY / 2 - 1) / SECONDS_IN_DAY;
    DivBounds(delta + SECONDS_IN_DAY / 2 - 1, SECONDS_IN_DAY);
    DivUnique(delta * (SECONDS_IN_DAY - 1) + SECONDS_IN_DAY / 2, SECONDS_IN_DAY, delta - q);
  }

  lemma {:induction false} GrowthWithoutRate(acc: nat, n: nat, s: nat)
    requires s > 0
    ensures Power(acc, s, n, s) == acc
    decreases n
  {
    RoundedUnit(acc, s);
    RoundedUnit(s, s);
    if n == 0 {
    } else {
      GrowthWithoutRate(acc, n / 2, s);
    }
  }

  /** Without a rate nothing grows. */
  lemma GrowthAtZeroRate(n: nat, growth: nat)
    requires growth == Growth(0, n)
    ensures growth == INT_SCALE
  {
    GrowthWithoutRate(INT_SCALE, n, INT_SCALE);
  }

  lemma FlatLine(start: nat, target: nat, seconds: nat)
    requires start == target || (start < target && seconds == 0)
    ensures Line(start, target, seconds) == start
  {
    var delta := target - start;
    assert delta * seconds == 0;
  }

  lemma InterpolateIsLine(dayPrice: u128, factor: u128, seconds: nat)
    requires seconds < SECONDS_IN_DAY && factor >= INT_SCALE && Interpolate(dayPrice, factor, seconds).Ok?
    ensures dayPrice <= Rounded(dayPrice, factor, INT_SCALE)
    ensures Interpolate(dayPrice, factor, seconds).value
      == Line(dayPrice, Rounded(dayPrice, factor, INT_SCALE), seconds)
  {
    RoundedGrows(dayPrice, factor, INT_SCALE);
    LineShape(dayPrice, Rounded(dayPrice, factor, INT_SCALE), 0, seconds);
  }

  /** A successful price is the unbounded one. */
  lemma PriceIsUnbounded(apr: u64, basePrice: u64, elapsed: u64, price: u64)
    requires VectorPrice(apr, basePrice, elapsed) == Ok(price)
    ensures price == UnboundedPrice(apr, basePrice, elapsed)
  {
    if apr == 0 || elapsed == 0 {
      var n := elapsed / SECONDS_IN_DAY;
      TargetAboveStart(apr, basePrice, n);
      GrowthAtZeroRate(n, Growth(0, n));
      RoundedUnit(basePrice, INT_SCALE);
      FlatLine(DayStart(apr, basePrice, n), DayTarget(apr, basePrice, n), elapsed % SECONDS_IN_DAY);
    } else {
      PowerCheckedExact(INT_SCALE, DailyFactor(apr), elapsed / SECONDS_IN_DAY, INT_SCALE);
      InterpolateIsLine(DayStart(apr, basePrice, elapsed / SECONDS_IN_DAY), DailyFactor(apr), elapsed % SECONDS_IN_DAY);
    }
  }

  /** A product that is reported as overflowing has a quotient out of reach. */
  lemma OverflowGenuine(a: u128, b: u128)
    requires MulDivRound(a, b, INT_SCALE).None?
    ensures (Rounded(a, b, INT_SCALE) + 1) * INT_SCALE > U128_MAX
  {
    RoundedError(a, b, INT_SCALE);
    DivBounds(a * b + INT_SCALE / 2, INT_SCALE);
  }

  /**
   * A price is refused only when it exceeds 64 bits, or when the growth of its whole days or the next day's price is
   * beyond 128 bits in the fixed-point scale; one that exceeds 64 bits is always refused.
   */
  lemma PriceErrorGenuine(apr: u64, basePrice: u64, elapsed: u64)
    ensures UnboundedPrice(apr, basePrice, elapsed) > U64_MAX ==> VectorPrice(apr, basePrice, elapsed).Err?
    ensures var n := elapsed / SECONDS_IN_DAY; VectorPrice(apr, basePrice, elapsed).Err? ==>
      || UnboundedPrice(apr, basePrice, elapsed) > U64_MAX
      || (Growth(apr, n) + 1) * INT_SCALE > U128_MAX + 1
      || (DayTarget(apr, basePrice, n) + 1) * INT_SCALE > U128_MAX
  {
    match VectorPrice(apr, basePrice, elapsed) {
      case Ok(price) => PriceIsUnbounded(apr, basePrice, elapsed, price);
      case Err(_) => RefusalGenuine(apr, basePrice, elapsed);
    }
  }

  lemma RefusalGenuine(apr: u64, basePrice: u64, elapsed: u64)
    requires apr > 0 && elapsed > 0 && VectorPrice(apr, basePrice, elapsed).Err?
    ensures var n := elapsed / SECONDS_IN_DAY;
      || UnboundedPrice(apr, basePrice, elapsed) > U64_MAX
      || (Growth(apr, n) + 1) * INT_SCALE > U128_MAX + 1
      || (DayTarget(apr, basePrice, n) + 1) * INT_SCALE > U128_MAX
  {
    var n, f := elapsed / SECONDS_IN_DAY, DailyFactor(apr);
    var growth := PowerChecked(INT_SCALE, f, n, INT_SCALE);
    if growth.None? {
      PowerOverflowGenuine(INT_SCALE, f, n, INT_SCALE);
    } else {
      PowerCheckedExact(INT_SCALE, f, n, INT_SCALE);
      TargetAboveStart(apr, basePrice, n);
      LineShape(DayStart(apr, basePrice, n), DayTarget(apr, basePrice, n), elapsed % SECONDS_IN_DAY,
                elapsed % SECONDS_IN_DAY);
      if MulDivRound(basePrice, growth.value, INT_SCALE).None? {
        OverflowGenuine(basePrice, growth.value);
      } else {
        InterpolateErrorGenuine(DayStart(apr, basePrice, n), f, elapsed % SECONDS_IN_DAY);
      }
    }
  }

  lemma InterpolateErrorGenuine(dayPrice: u128, factor: u128, seconds: nat)
    requires seconds < SECONDS_IN_DAY && factor >= INT_SCALE && Interpolate(dayPrice, factor, seconds).Err?
    ensures var target := Rounded(dayPrice, factor, INT_SCALE);
      Line(dayPrice, target, seconds) > U64_MAX || (target + 1) * INT_SCALE > U128_MAX
  {
    var target := Rounded(dayPrice, factor, INT_SCALE);
    RoundedGrows(dayPrice, factor, INT_SCALE);
    if seconds == 0 {
      LineShape(dayPrice, target, 0, 0);
    } else if MulDivRound(dayPrice, factor, INT_SCALE).None? {
      OverflowGenuine(dayPrice, factor);
    } else if MulDivRound(target - dayPrice, seconds, SECONDS_IN_DAY).None? {
      PartOverflow(target - dayPrice, target, seconds);
    }
  }

  lemma PartOverflow(delta: u128, target: u128, seconds: nat)
    requires delta <= target && seconds < SECONDS_IN_DAY && MulDivRound(delta, seconds, SECONDS_IN_DAY).None?
    ensures (target + 1) * INT_SCALE > U128_MAX
  {
    MulMonotone(delta, target, seconds, SECONDS_IN_DAY);
  }

  // ---------------------------------------------------------------- order over time

  /** The price at a day boundary is the compounded one. */
  lemma PriceAtDayStart(apr: u64, basePrice: u64, n: nat)
    ensures UnboundedPrice(apr, basePrice, n * SECONDS_IN_DAY) == DayStart(apr, basePrice, n)
  {
    assert (n * SECONDS_IN_DAY) / SECONDS_IN_DAY == n && (n * SECONDS_IN_DAY) % SECONDS_IN_DAY == 0;
    TargetAboveStart(apr, basePrice, n);
    LineShape(DayStart(apr, basePrice, n), DayTarget(apr, basePrice, n), 0, 0);
  }

  lemma DayStartMonotone(apr: u64, basePrice: u64, n: nat, n': nat)
    requires n <= n'
    ensures DayStart(apr, basePrice, n) <= DayStart(apr, basePrice, n')
  {
    PowerMonotoneInExponent(DailyFactor(apr), n, n', INT_SCALE);
    RoundedMonotone(basePrice, Growth(apr, n), basePrice, Growth(apr, n'), INT_SCALE);
  }

  /** Within one day the price never falls. */
  lemma PriceMonotoneWithinDay(apr: u64, basePrice: u64, t: nat, t': nat)
    requires t <= t' && t / SECONDS_IN_DAY == t' / SECONDS_IN_DAY
    ensures UnboundedPrice(apr, basePrice, t) <= UnboundedPrice(apr, basePrice, t')
  {
    var n := t / SECONDS_IN_DAY;
    TargetAboveStart(apr, basePrice, n);
    LineShape(DayStart(apr, basePrice, n), DayTarget(apr, basePrice, n), t % SECONDS_IN_DAY, t' % SECONDS_IN_DAY);
  }

  /** From a day boundary onwards the price never falls below its value there. */
  lemma PriceMonotoneFromDayStart(apr: u64, basePrice: u64, n: nat, t: nat)
    requires n * SECONDS_IN_DAY <= t
    ensures DayStart(apr, basePrice, n) <= UnboundedPrice(apr, basePrice, t)
  {
    var m := t / SECONDS_IN_DAY;
    assert n <= m;
    DayStartMonotone(apr, basePrice, n, m);
    TargetAboveStart(apr, basePrice, m);
    LineShape(DayStart(apr, basePrice, m), DayTarget(apr, basePrice, m), 0, t % SECONDS_IN_DAY);
  }

  /** No price is ever below the vector's base price. */
  lemma PriceAtLeastBase(apr: u64, basePrice: u64, t: nat)
    ensures basePrice <= UnboundedPrice(apr, basePrice, t)
  {
    RoundedUnit(basePrice, INT_SCALE);
    PriceMonotoneFromDayStart(apr, basePrice, 0, t);
  }

  function LastSecond(n: nat): nat { n * SECONDS_IN_DAY + (SECONDS_IN_DAY - 1) }

  ghost predicate NonDecreasingUpTo(apr: u64, basePrice: u64, horizon: nat)
  {
    forall t: nat, t': nat :: t <= t' <= horizon ==>
      UnboundedPrice(apr, basePrice, t) <= UnboundedPrice(apr, basePrice, t')
  }

  /**
   * The compounded price of the next day makes up for what the interpolation of day `n` heads for, less the growth of
   * its last second.
   */
  predicate KeepsMidnight(apr: u64, basePrice: u64, n: nat)
  {
    var start, target := DayStart(apr, basePrice, n), DayTarget(apr, basePrice, n);
    target <= DayStart(apr, basePrice, n + 1) + (target - start + SECONDS_IN_DAY / 2 - 1) / SECONDS_IN_DAY
  }

  /** This is exactly when the price does not fall at that midnight. */
  lemma MidnightKept(apr: u64, basePrice: u64, n: nat)
    ensures KeepsMidnight(apr, basePrice, n)
       <==> UnboundedPrice(apr, basePrice, LastSecond(n)) <= UnboundedPrice(apr, basePrice, LastSecond(n) + 1)
    ensures UnboundedPrice(apr, basePrice, LastSecond(n) + 1) == DayStart(apr, basePrice, n + 1)
  {
    assert LastSecond(n) / SECONDS_IN_DAY == n && LastSecond(n) % SECONDS_IN_DAY == SECONDS_IN_DAY - 1;
    assert LastSecond(n) + 1 == (n + 1) * SECONDS_IN_DAY;
    TargetAboveStart(apr, basePrice, n);
    LineAtLastSecond(DayStart(apr, basePrice, n), DayTarget(apr, basePrice, n));
    PriceAtDayStart(apr, basePrice, n + 1);
  }

  ghost predicate KeepsMidnightsUpTo(apr: u64, basePrice: u64, horizon: nat)
  {
    forall n: nat :: LastSecond(n) < horizon ==> KeepsMidnight(apr, basePrice, n)
  }

  /** The price is non-decreasing exactly when the compounded day prices keep every midnight: only there can it fall. */
  lemma PriceMonotoneIffMidnightsKept(apr: u64, basePrice: u64, horizon: nat)
    ensures NonDecreasingUpTo(apr, basePrice, horizon) <==> KeepsMidnightsUpTo(apr, basePrice, horizon)
  {
    if NonDecreasingUpTo(apr, basePrice, horizon) {
      forall n: nat | LastSecond(n) < horizon
        ensures KeepsMidnight(apr, basePrice, n)
      {
        MidnightKept(apr, basePrice, n);
      }
    }
    if KeepsMidnightsUpTo(apr, basePrice, horizon) {
      forall t: nat, t': nat | t <= t' <= horizon
        ensures UnboundedPrice(apr, basePrice, t) <= UnboundedPrice(apr, basePrice, t')
      {
        if t / SECONDS_IN_DAY != t' / SECONDS_IN_DAY {
          assert LastSecond(t / SECONDS_IN_DAY) < t';
        }
        PriceAcrossKeptMidnight(apr, basePrice, t, t');
      }
    }
  }

  /** Only the first midnight after `t` can make a later price undercut the one at `t`. */
  lemma PriceAcrossKeptMidnight(apr: u64, basePrice: u64, t: nat, t': nat)
    requires t <= t'
    requires t / SECONDS_IN_DAY == t' / SECONDS_IN_DAY || KeepsMidnight(apr, basePrice, t / SECONDS_IN_DAY)
    ensures UnboundedPrice(apr, basePrice, t) <= UnboundedPrice(apr, basePrice, t')
  {
    var n := t / SECONDS_IN_DAY;
    if n == t' / SECONDS_IN_DAY {
      PriceMonotoneWithinDay(apr, basePrice, t, t');
    } else {
      assert LastSecond(n) / SECONDS_IN_DAY == n;
      PriceMonotoneWithinDay(apr, basePrice, t, LastSecond(n));
      MidnightKept(apr, basePrice, n);
      PriceMonotoneFromDayStart(apr, basePrice, n + 1, t');
    }
  }

  // ---------------------------------------------------------------- how far it can fall

  /** The rounding noise of `n` days is below a quarter of a price unit and a day grows by at most one half. */
  predicate SmallRoundingNoise(apr: u64, basePrice: u64, n: nat)
  {
    && 2 * DailyFactor(apr) <= 3 * INT_SCALE
    && 4 * n * (2 * DayStart(apr, basePrice, n + 1) + 1) + 2 * n < 2 * INT_SCALE - 1
  }

  /** A century, prices up to 5000.0 and rates up to 18200% keep the noise small. */
  lemma NoiseIsSmall(apr: u64, basePrice: u64, n: nat)
    requires apr <= 182 * APR_SCALE && n <= 36_500
    ensures DayStart(apr, basePrice, n + 1) <= 5_000_000_000_000 ==> SmallRoundingNoise(apr, basePrice, n)
  {
    DivMonotone(INT_SCALE * apr + APR_SCALE * 365 / 2, INT_SCALE * (182 * APR_SCALE) + APR_SCALE * 365 / 2,
                APR_SCALE * 365);
    if DayStart(apr, basePrice, n + 1) <= 5_000_000_000_000 {
      NoiseBelow(n, DayStart(apr, basePrice, n + 1));
    }
  }

  lemma NoiseBelow(n: nat, price: nat)
    requires n <= 36_500 && price <= 5_000_000_000_000
    ensures 4 * n * (2 * price + 1) + 2 * n < 2 * INT_SCALE - 1
  {
    MulMonotone(4 * n, 4 * 36_500, 2 * price + 1, 2 * 5_000_000_000_000 + 1);
  }

  /** What the interpolation heads for against the next day's price, for any rate, price and day. */
  lemma TargetGap(apr: u64, basePrice: u64, n: nat)
    requires 2 * n < 2 * INT_SCALE - 1
    ensures var f, next, k, l := DailyFactor(apr), DayStart(apr, basePrice, n + 1), 2 * INT_SCALE - 1 - 2 * n,
      2 * INT_SCALE - 1;
      2 * (DayTarget(apr, basePrice, n) * (INT_SCALE * k)) <= (2 * next + 1) * (INT_SCALE * l) + f * k + INT_SCALE * k
  {
    var f := DailyFactor(apr);
    ConsecutivePowers(f, n, INT_SCALE);
    RoundedError(basePrice, Growth(apr, n), INT_SCALE);
    RoundedError(DayStart(apr, basePrice, n), f, INT_SCALE);
    RoundedError(basePrice, Growth(apr, n + 1), INT_SCALE);
    TwoRoundings(basePrice, Growth(apr, n), Growth(apr, n + 1), f, DayStart(apr, basePrice, n),
                 DayTarget(apr, basePrice, n),
                 DayStart(apr, basePrice, n + 1), INT_SCALE, 2 * INT_SCALE - 1 - 2 * n, 2 * INT_SCALE - 1);
  }

  lemma TargetNearNextStart(apr: u64, basePrice: u64, n: nat)
    requires SmallRoundingNoise(apr, basePrice, n)
    ensures DayTarget(apr, basePrice, n) <= DayStart(apr, basePrice, n + 1) + 1
  {
    var next := DayStart(apr, basePrice, n + 1);
    MulMonotone(0, 4 * n, 0, 2 * next + 1);
    TargetGap(apr, basePrice, n);
    NoiseBound(DayTarget(apr, basePrice, n), next, DailyFactor(apr), INT_SCALE, 2 * INT_SCALE - 1 - 2 * n,
               2 * INT_SCALE - 1, n);
  }

  /**
   * Under small noise a midnight is kept exactly when the day grew by more than half a unit a second, or met its
   * target.
   */
  lemma MidnightUnderSmallNoise(apr: u64, basePrice: u64, n: nat)
    requires SmallRoundingNoise(apr, basePrice, n)
    ensures KeepsMidnight(apr, basePrice, n)
       <==> DayTarget(apr, basePrice, n) - DayStart(apr, basePrice, n) > SECONDS_IN_DAY / 2
            || DayTarget(apr, basePrice, n) <= DayStart(apr, basePrice, n + 1)
  {
    TargetNearNextStart(apr, basePrice, n);
    TargetAboveStart(apr, basePrice, n);
    var grown := DayTarget(apr, basePrice, n) - DayStart(apr, basePrice, n) + SECONDS_IN_DAY / 2 - 1;
    DivAtLeast(grown, SECONDS_IN_DAY, 0);
    DivAtLeast(grown, SECONDS_IN_DAY, 1);
  }

  /** It is enough that the vector's first day grows by more than half a unit a second and half a unit in all. */
  lemma GrowingVectorKeepsMidnight(apr: u64, basePrice: u64, n: nat)
    requires SmallRoundingNoise(apr, basePrice, n)
    requires 2 * (basePrice * (DailyFactor(apr) - INT_SCALE)) > (SECONDS_IN_DAY + 1) * INT_SCALE
    ensures KeepsMidnight(apr, basePrice, n)
  {
    DayGrowth(apr, basePrice, n);
    MidnightUnderSmallNoise(apr, basePrice, n);
  }

  /** Every day grows by at least what the daily factor adds to the base price, but for half a unit. */
  lemma DayGrowth(apr: u64, basePrice: u64, n: nat)
    ensures 2 * (basePrice * (DailyFactor(apr) - INT_SCALE)) - INT_SCALE
         <= 2 * INT_SCALE * (DayTarget(apr, basePrice, n) - DayStart(apr, basePrice, n))
  {
    PriceAtDayStart(apr, basePrice, n);
    PriceAtLeastBase(apr, basePrice, n * SECONDS_IN_DAY);
    RoundedError(DayStart(apr, basePrice, n), DailyFactor(apr), INT_SCALE);
    TimesFactor(basePrice, DayStart(apr, basePrice, n), DailyFactor(apr));
  }

  lemma TimesFactor(b: nat, start: nat, f: nat)
    requires b <= start && f >= INT_SCALE
    ensures start * INT_SCALE + b * (f - INT_SCALE) <= start * f
  {
    MulMonotone(b, start, f - INT_SCALE, f - INT_SCALE);
    assert start * f == start * INT_SCALE + start * (f - INT_SCALE);
  }

  // The next lemmas are the arithmetic of TargetNearNextStart, one product at a time.

  /** Two roundings of `b * g * f` against one of `b * g'`, in a scale `s`. */
  lemma TwoRoundings(b: nat, g: nat, g': nat, f: nat, p: nat, t: nat, p': nat, s: nat, k: nat, l: nat)
    requires s > 0
    requires (g * f) * k <= (g' * s) * l
    requires 2 * (p * s) <= 2 * (b * g) + s
    requires 2 * (t * s) <= 2 * (p * f) + s
    requires 2 * (b * g') - s <= 2 * (p' * s)
    ensures 2 * (t * (s * k)) <= (2 * p' + 1) * (s * l) + f * k + s * k
  {
    TargetBound(b, g, f, p, t, s);
    MulMonotoneLeft((g * f) * k, (g' * s) * l, b);
    Regroup(b, g * f, k, g', s, l);
    NextBound(b * g', p', s, l);
    ScaledGap(t, 2 * p' + 1, f, s, k, b * (g * f), (b * g') * (s * l), l);
  }

  lemma NextBound(bg: nat, p': nat, s: nat, l: nat)
    requires 2 * bg - s <= 2 * (p' * s)
    ensures 2 * (bg * (s * l)) <= (s * (2 * p' + 1)) * (s * l)
  {
    MulMonotone(0, s, 0, l);
    assert 2 * (p' * s) + s == s * (2 * p' + 1);
    MulMonotoneLeft(2 * bg, s * (2 * p' + 1), s * l);
    Double(bg, s * l);
  }

  lemma Double(a: int, b: int)
    ensures (2 * a) * b == 2 * (a * b)
  {
  }

  /** What the noise bound makes of the gap. */
  lemma NoiseBound(t: nat, p': nat, f: nat, s: nat, k: nat, l: nat, n: nat)
    requires s > 0 && 2 * f <= 3 * s && k == l - 2 * n && 4 * n * (2 * p' + 1) < k
    requires 2 * (t * (s * k)) <= (2 * p' + 1) * (s * l) + f * k + s * k
    ensures t <= p' + 1
  {
    SplitLength(2 * p' + 1, s, l, k, n);
    MulMonotoneLeft(2 * f, 3 * s, k);
    Factors(f, s, k);
    MulStep(4 * n * (2 * p' + 1), k, s);
    NoiseTwice(n, 2 * p' + 1, s);
    MulMonotone(0, n, 0, 2 * p' + 1);
    MulMonotone(0, s, 0, 2 * n * (2 * p' + 1));
    FinalGap(t, p', s * k, s * (2 * n * (2 * p' + 1)), s * (4 * n * (2 * p' + 1)), f * k, s);
  }

  lemma Factors(f: int, s: int, k: int)
    ensures (2 * f) * k == 2 * (f * k) && (3 * s) * k == 3 * (s * k)
  {
  }

  lemma NoiseTwice(n: nat, q: nat, s: nat)
    ensures s * (4 * n * q) == 2 * (s * (2 * n * q)) && (4 * n * q) * s == s * (4 * n * q)
    ensures 0 <= 2 * n * q
  {
    MulMonotone(0, n, 0, q);
    assert 4 * n * q == 2 * (2 * n * q);
  }

  lemma Regroup(b: int, gf: int, k: int, g': int, s: int, l: int)
    ensures (gf * k) * b == (b * gf) * k && ((g' * s) * l) * b == (b * g') * (s * l)
  {
    assert ((g' * s) * l) * b == (g' * (s * l)) * b;
  }

  lemma TargetBound(b: nat, g: nat, f: nat, p: nat, t: nat, s: nat)
    requires s > 0
    requires 2 * (p * s) <= 2 * (b * g) + s
    requires 2 * (t * s) <= 2 * (p * f) + s
    ensures 2 * ((t * s) * s) <= 2 * (b * (g * f)) + (f + s) * s
  {
    MulMonotoneLeft(2 * (t * s), 2 * (p * f) + s, s);
    MulMonotoneLeft(2 * (p * s), 2 * (b * g) + s, f);
    assert (p * f) * s == (p * s) * f;
    assert (b * g) * f == b * (g * f);
  }

  lemma ScaledGap(t: nat, q: nat, f: nat, s: nat, k: nat, x: int, y: int, l: nat)
    requires s > 0
    requires 2 * ((t * s) * s) <= 2 * x + (f + s) * s
    requires x * k <= y && 2 * y <= (s * q) * (s * l)
    ensures 2 * (t * (s * k)) <= q * (s * l) + f * k + s * k
  {
    MulMonotoneLeft(2 * ((t * s) * s), 2 * x + (f + s) * s, k);
    Spread(x, f + s, s, k);
    Reassociate(t, s, k);
    SquareOut(s, q, l);
    assert (2 * (t * (s * k))) * s <= (q * (s * l) + (f + s) * k) * s;
    MulCancel(2 * (t * (s * k)), q * (s * l) + (f + s) * k, s);
  }

  lemma Reassociate(t: int, s: int, k: int)
    ensures (2 * ((t * s) * s)) * k == (2 * (t * (s * k))) * s
  {
    assert ((t * s) * s) * k == (t * (s * k)) * s;
  }

  lemma SquareOut(s: int, q: int, l: int)
    ensures (s * q) * (s * l) == (q * (s * l)) * s
  {
  }

  lemma Spread(x: int, a: int, s: int, k: int)
    ensures (2 * x + a * s) * k == 2 * (x * k) + (a * k) * s
  {
  }

  lemma SplitLength(q: int, s: int, l: int, k: int, n: int)
    requires l == k + 2 * n
    ensures q * (s * l) == q * (s * k) + s * (2 * n * q)
  {
    assert s * l == s * k + s * (2 * n);
    assert q * (s * (2 * n)) == s * (2 * n * q);
  }

  lemma FinalGap(t: nat, p': nat, sk: int, e: nat, e2: nat, fk: int, s: nat)
    requires e2 == 2 * e && e2 + s <= sk && s > 0 && 2 * fk <= 3 * sk
    requires 2 * (t * sk) <= (2 * p' + 1) * sk + e + fk + sk
    ensures t <= p' + 1
  {
    assert (p' + 2) * sk == p' * sk + 2 * sk;
    assert (2 * p' + 1) * sk == 2 * (p' * sk) + sk;
    if t > p' + 1 {
      MulMonotoneLeft(p' + 2, t, sk);
    }
  }

  /** Under small rounding noise a price, once published, is never undercut by more than one unit. */
  lemma PriceFallsByAtMostOne(apr: u64, basePrice: u64, t: nat, t': nat)
    requires t <= t'
    ensures SmallRoundingNoise(apr, basePrice, t / SECONDS_IN_DAY) ==>
      UnboundedPrice(apr, basePrice, t) <= UnboundedPrice(apr, basePrice, t') + 1
  {
    var n := t / SECONDS_IN_DAY;
    if n == t' / SECONDS_IN_DAY {
      PriceMonotoneWithinDay(apr, basePrice, t, t');
    } else if SmallRoundingNoise(apr, basePrice, n) {
      TargetAboveStart(apr, basePrice, n);
      LineShape(DayStart(apr, basePrice, n), DayTarget(apr, basePrice, n), t % SECONDS_IN_DAY, t % SECONDS_IN_DAY);
      TargetNearNextStart(apr, basePrice, n);
      PriceMonotoneFromDayStart(apr, basePrice, n + 1, t');
    }
  }

  /** ... and it does not fall at all when that day grows by more than half a unit a second. */
  lemma PriceMonotoneWhenGrowthVisible(apr: u64, basePrice: u64, t: nat, t': nat)
    requires t <= t'
    ensures
      && SmallRoundingNoise(apr, basePrice, t / SECONDS_IN_DAY)
      && DayTarget(apr, basePrice, t / SECONDS_IN_DAY) - DayStart(apr, basePrice,
                                                                  t / SECONDS_IN_DAY) > SECONDS_IN_DAY / 2
      ==> UnboundedPrice(apr, basePrice, t) <= UnboundedPrice(apr, basePrice, t')
  {
    var n := t / SECONDS_IN_DAY;
    if
      && SmallRoundingNoise(apr, basePrice, n)
      && DayTarget(apr, basePrice, n) - DayStart(apr, basePrice, n) > SECONDS_IN_DAY / 2
    {
      MidnightUnderSmallNoise(apr, basePrice, n);
      PriceAcrossKeptMidnight(apr, basePrice, t, t');
    }
  }

  /**
   * Without any assumption on the noise: how far a later price can undercut an earlier one, for any rate, price and
   * every day that 64-bit times reach. With `n` days passed, the loss is about one unit and `2n` parts in `2 *
   * 10^18`.
   */
  lemma PriceFallBounded(apr: u64, basePrice: u64, t: nat, t': nat)
    requires t <= t' && t <= U64_MAX
    ensures var k, l := 2 * INT_SCALE - 1 - 2 * (t / SECONDS_IN_DAY), 2 * INT_SCALE - 1;
      2 * (UnboundedPrice(apr, basePrice, t) * (INT_SCALE * k))
      <= (2 * UnboundedPrice(apr, basePrice, t') + 1) * (INT_SCALE * l) + DailyFactor(apr) * k + INT_SCALE * k
  {
    var n := t / SECONDS_IN_DAY;
    var k, l := 2 * INT_SCALE - 1 - 2 * n, 2 * INT_SCALE - 1;
    var now, later := UnboundedPrice(apr, basePrice, t), UnboundedPrice(apr, basePrice, t');
    if n == t' / SECONDS_IN_DAY {
      PriceMonotoneWithinDay(apr, basePrice, t, t');
      NoFall(now, later, DailyFactor(apr), k, l);
    } else {
      PriceBelowTarget(apr, basePrice, t);
      PriceMonotoneFromDayStart(apr, basePrice, n + 1, t');
      TargetGap(apr, basePrice, n);
      WiderGap(now, DayTarget(apr, basePrice, n), DayStart(apr, basePrice, n + 1), later, DailyFactor(apr), k, l);
    }
  }

  lemma PriceBelowTarget(apr: u64, basePrice: u64, t: nat)
    ensures UnboundedPrice(apr, basePrice, t) <= DayTarget(apr, basePrice, t / SECONDS_IN_DAY)
  {
    var n := t / SECONDS_IN_DAY;
    TargetAboveStart(apr, basePrice, n);
    LineShape(DayStart(apr, basePrice, n), DayTarget(apr, basePrice, n), t % SECONDS_IN_DAY, t % SECONDS_IN_DAY);
  }

  lemma NoFall(now: nat, later: nat, f: nat, k: nat, l: nat)
    requires now <= later && k <= l
    ensures 2 * (now * (INT_SCALE * k)) <= (2 * later + 1) * (INT_SCALE * l) + f * k + INT_SCALE * k
  {
    MulMonotone(2 * now, 2 * later + 1, INT_SCALE * k, INT_SCALE * l);
    MulMonotone(0, f, 0, k);
  }

  lemma WiderGap(now: nat, target: nat, next: nat, later: nat, f: nat, k: nat, l: nat)
    requires now <= target && next <= later
    requires 2 * (target * (INT_SCALE * k)) <= (2 * next + 1) * (INT_SCALE * l) + f * k + INT_SCALE * k
    ensures 2 * (now * (INT_SCALE * k)) <= (2 * later + 1) * (INT_SCALE * l) + f * k + INT_SCALE * k
  {
    MulMonotone(now, target, INT_SCALE * k, INT_SCALE * k);
    MulMonotone(2 * next + 1, 2 * later + 1, INT_SCALE * l, INT_SCALE * l);
  }

  const F1 := 1000027397260273973
  const F7 := 1000191796585444876
  const F8 := 1000219199100419820

  lemma PowersAtOnePercent()
    ensures DailyFactor(10_000) == F1
    ensures PowerChecked(INT_SCALE, F1, 7, INT_SCALE) == Some(F7)
      && PowerChecked(INT_SCALE, F1, 8, INT_SCALE) == Some(F8)
  {
    var f1, f2, f3, f4, f7, f8 := F1, 1000054795271157817, 1000082194032672096, 1000109593544837375, F7, F8;
    assert DailyFactor(10_000) == f1;
    assert MulDivRound(f1, f1, INT_SCALE) == Some(f2);
    assert MulDivRound(f1, f2, INT_SCALE) == Some(f3);
    assert MulDivRound(f2, f2, INT_SCALE) == Some(f4);
    assert MulDivRound(f3, f4, INT_SCALE) == Some(f7);
    assert MulDivRound(f4, f4, INT_SCALE) == Some(f8);
    assert MulDivRound(INT_SCALE, f1, INT_SCALE) == Some(f1);
    assert MulDivRound(INT_SCALE, f8, INT_SCALE) == Some(f8);
    assert PowerChecked(f7, f4, 0, INT_SCALE) == Some(f7);
    assert PowerChecked(f3, f4, 1, INT_SCALE) == Some(f7);
    assert PowerChecked(f1, f2, 3, INT_SCALE) == Some(f7);
    assert PowerChecked(INT_SCALE, f1, 7, INT_SCALE) == Some(f7);
    assert PowerChecked(f8, f8, 0, INT_SCALE) == Some(f8);
    assert PowerChecked(INT_SCALE, f8, 1, INT_SCALE) == Some(f8);
    assert PowerChecked(INT_SCALE, f4, 2, INT_SCALE) == Some(f8);
    assert PowerChecked(INT_SCALE, f2, 4, INT_SCALE) == Some(f8);
    assert PowerChecked(INT_SCALE, f1, 8, INT_SCALE) == Some(f8);
  }

  /** At 1% APR from a price of 1.0 the price, also as published in steps of a second, drops at the eighth midnight. */
  lemma PriceCanFallAtMidnight()
    ensures VectorPrice(10_000, 1_000_000_000, LastSecond(7)) == Ok(1000219200)
    ensures VectorPrice(10_000, 1_000_000_000, LastSecond(7) + 1) == Ok(1000219199)
    ensures StepPriceAt(10_000, 1_000_000_000, 1, 1, LastSecond(7)) == Ok(1000219200)
    ensures StepPriceAt(10_000, 1_000_000_000, 1, 1, LastSecond(7) + 1) == Ok(1000219199)
  {
    PowersAtOnePercent();
    EighthMidnight();
    PriceByDays(10_000, 1_000_000_000, 7, SECONDS_IN_DAY - 1, F7, 1000191797);
    PriceByDays(10_000, 1_000_000_000, 8, 0, F8, 1000219199);
  }

  /** The price from its whole days and the seconds beyond them. */
  lemma PriceByDays(apr: u64, basePrice: u64, days: nat, seconds: nat, growth: u128, dayPrice: u128)
    requires apr > 0 && seconds < SECONDS_IN_DAY && 0 < days * SECONDS_IN_DAY + seconds <= U64_MAX
    requires PowerChecked(INT_SCALE, DailyFactor(apr), days, INT_SCALE) == Some(growth)
    requires MulDivRound(basePrice, growth, INT_SCALE) == Some(dayPrice)
    ensures VectorPrice(apr, basePrice, days * SECONDS_IN_DAY + seconds)
      == Interpolate(dayPrice, DailyFactor(apr), seconds)
  {
    var elapsed := days * SECONDS_IN_DAY + seconds;
    assert elapsed / SECONDS_IN_DAY == days && elapsed % SECONDS_IN_DAY == seconds;
  }

  lemma EighthMidnight()
    ensures MulDivRound(1_000_000_000, F7, INT_SCALE) == Some(1000191797)
    ensures MulDivRound(1_000_000_000, F8, INT_SCALE) == Some(1000219199)
    ensures Interpolate(1000191797, F1, SECONDS_IN_DAY - 1) == Ok(1000219200)
  {
    assert MulDivRound(1000191797, F1, INT_SCALE) == Some(1000219200);
    assert MulDivRound(27403, SECONDS_IN_DAY - 1, SECONDS_IN_DAY) == Some(27403);
  }

  // ---------------------------------------------------------------- step price

  /** One price, or one error, over the whole step `k`, from `k * fixDuration` up to `end`: what holds at its end. */
  lemma StepPriceConstantOnStep(apr: u64, basePrice: u64, baseTime: u64, fixDuration: u64, k: nat, end: nat, t: u64)
    requires fixDuration > 0 && end == k * fixDuration + fixDuration
    requires baseTime + end - fixDuration <= t < baseTime + end
    ensures StepPriceAt(apr, basePrice, baseTime, fixDuration, t)
         == if k < U64_MAX && end <= U64_MAX then VectorPrice(apr, basePrice, end) else Err(Overflow)
  {
    MulMonotone(0, k, 0, fixDuration);
    assert (k + 1) * fixDuration == k * fixDuration + fixDuration;
    DivUnique(t - baseTime, fixDuration, k);
  }

  /** End of the step `elapsed` lies in. */
  function StepEnd(elapsed: nat, fixDuration: nat): (end: nat)
    requires fixDuration > 0
    ensures elapsed < end <= elapsed + fixDuration
  {
    DivBounds(elapsed, fixDuration);
    assert (elapsed / fixDuration + 1) * fixDuration == (elapsed / fixDuration) * fixDuration + fixDuration;
    (elapsed / fixDuration + 1) * fixDuration
  }

  lemma StepEndMonotone(elapsed: nat, elapsed': nat, fixDuration: nat)
    requires fixDuration > 0 && elapsed <= elapsed'
    ensures StepEnd(elapsed, fixDuration) <= StepEnd(elapsed', fixDuration)
  {
    DivMonotone(elapsed, elapsed', fixDuration);
    MulMonotoneLeft(elapsed / fixDuration + 1, elapsed' / fixDuration + 1, fixDuration);
  }

  lemma StepEndWholeDays(elapsed: nat, days: nat) returns (n: nat)
    requires days > 0
    ensures StepEnd(elapsed, days * SECONDS_IN_DAY) == n * SECONDS_IN_DAY
  {
    var k := elapsed / (days * SECONDS_IN_DAY) + 1;
    DivAtLeast(elapsed, days * SECONDS_IN_DAY, 0);
    MulMonotone(0, k, 0, days);
    n := k * days;
    assert k * (days * SECONDS_IN_DAY) == (k * days) * SECONDS_IN_DAY;
  }

  /**
   * A step price is the vector price at the end of the step, so it is never below the base price; before the base time
   * there is none, and a step of no length panics.
   */
  lemma StepPriceIsEndOfStep(apr: u64, basePrice: u64, baseTime: u64, fixDuration: u64, t: u64)
    ensures t < baseTime ==> StepPriceAt(apr, basePrice, baseTime, fixDuration, t) == Err(NoActiveVector)
    ensures baseTime <= t && fixDuration == 0 ==>
      StepPriceAt(apr, basePrice, baseTime, fixDuration, t) == Err(PriceError.Panic)
    ensures StepPriceAt(apr, basePrice, baseTime, fixDuration, t).Ok? ==>
      && baseTime <= t && fixDuration > 0
      && StepPriceAt(apr, basePrice, baseTime, fixDuration, t).value
         == UnboundedPrice(apr, basePrice, StepEnd(t - baseTime, fixDuration))
      && basePrice <= StepPriceAt(apr, basePrice, baseTime, fixDuration, t).value
  {
    if StepPriceAt(apr, basePrice, baseTime, fixDuration, t).Ok? {
      var end := StepEnd(t - baseTime, fixDuration);
      PriceIsUnbounded(apr, basePrice, end, StepPriceAt(apr, basePrice, baseTime, fixDuration, t).value);
      PriceAtLeastBase(apr, basePrice, end);
    }
  }

  /** Steps of whole days make the published price non-decreasing over all time, for every rate. */
  lemma StepPriceMonotoneForWholeDays(apr: u64, basePrice: u64, baseTime: u64, fixDuration: u64, t: u64, t': u64)
    requires t <= t' && fixDuration % SECONDS_IN_DAY == 0
    ensures
      StepPriceAt(apr, basePrice, baseTime, fixDuration, t).Ok?
        && StepPriceAt(apr, basePrice, baseTime, fixDuration, t').Ok? ==>
      StepPriceAt(apr, basePrice, baseTime, fixDuration, t).value
        <= StepPriceAt(apr, basePrice, baseTime, fixDuration, t').value
  {
    if StepPriceAt(apr, basePrice, baseTime, fixDuration, t).Ok?
      && StepPriceAt(apr, basePrice, baseTime, fixDuration, t').Ok? {
      StepPriceIsEndOfStep(apr, basePrice, baseTime, fixDuration, t);
      StepPriceIsEndOfStep(apr, basePrice, baseTime, fixDuration, t');
      WholeDayEnds(apr, basePrice, t - baseTime, t' - baseTime, fixDuration);
    }
  }

  /**
   * For steps of any length: a later step price is lower only if the midnight after the earlier step's end is not
   * kept.
   */
  lemma StepPriceFallsOnlyAtMidnight(apr: u64, basePrice: u64, baseTime: u64, fixDuration: u64, t: u64, t': u64)
    requires baseTime <= t <= t' && fixDuration > 0
    ensures var end, end' := StepEnd(t - baseTime, fixDuration), StepEnd(t' - baseTime, fixDuration);
      var price, price' := StepPriceAt(apr, basePrice, baseTime, fixDuration, t),
        StepPriceAt(apr, basePrice, baseTime, fixDuration, t');
      price.Ok? && price'.Ok? && price'.value < price.value ==>
      end / SECONDS_IN_DAY < end' / SECONDS_IN_DAY && !KeepsMidnight(apr, basePrice, end / SECONDS_IN_DAY)
  {
    var end, end' := StepEnd(t - baseTime, fixDuration), StepEnd(t' - baseTime, fixDuration);
    StepPriceIsEndOfStep(apr, basePrice, baseTime, fixDuration, t);
    StepPriceIsEndOfStep(apr, basePrice, baseTime, fixDuration, t');
    StepEndMonotone(t - baseTime, t' - baseTime, fixDuration);
    DivMonotone(end, end', SECONDS_IN_DAY);
    if end / SECONDS_IN_DAY == end' / SECONDS_IN_DAY || KeepsMidnight(apr, basePrice, end / SECONDS_IN_DAY) {
      PriceAcrossKeptMidnight(apr, basePrice, end, end');
    }
  }

  lemma WholeDayEnds(apr: u64, basePrice: u64, elapsed: nat, elapsed': nat, fixDuration: nat)
    requires elapsed <= elapsed' && fixDuration > 0 && fixDuration % SECONDS_IN_DAY == 0
    ensures UnboundedPrice(apr, basePrice, StepEnd(elapsed, fixDuration))
      <= UnboundedPrice(apr, basePrice, StepEnd(elapsed', fixDuration))
  {
    var n := StepEndWholeDays(elapsed, fixDuration / SECONDS_IN_DAY);
    StepEndMonotone(elapsed, elapsed', fixDuration);
    PriceAtDayStart(apr, basePrice, n);
    PriceMonotoneFromDayStart(apr, basePrice, n, StepEnd(elapsed', fixDuration));
  }
}
