/** Simple-interest step price used by the fuzz oracle (trident-tests/fuzz_0/invariants.rs). */
module OraclePrice {
  import opened Common
  import opened FixedPoint
  import VectorPricing

  const SECONDS_IN_YEAR := 31_536_000
  const APR_SCALE := 1_000_000
  const FACTOR_DEN := APR_SCALE * SECONDS_IN_YEAR

  datatype Panic = StepEndOverflow | PriceOverflow | DivisionByZero

  /** `floor(base * (1 + apr * elapsed / year))` in unbounded arithmetic. */
  function SimpleInterest(apr: nat, basePrice: nat, elapsed: nat): nat
  {
    var numerator := basePrice * (FACTOR_DEN + apr * elapsed);
    MulMonotone(0, apr, 0, elapsed);
    MulMonotone(0, basePrice, 0, FACTOR_DEN + apr * elapsed);
    DivAtLeast(numerator, FACTOR_DEN, 0);
    numerator / FACTOR_DEN
  }

  /** `calculate_price`; every `expect` and `panic!` is an error. */
  function CalculatePrice(apr: u64, basePrice: u64, baseTime: u64, fixDuration: u64, now: u64): Result<u64, Panic>
  {
    if baseTime > now then Ok(basePrice)
    else if fixDuration == 0 then Err(DivisionByZero)
    else
      var step := (now - baseTime) / fixDuration;
      if step + 1 > U64_MAX then Err(StepEndOverflow)
      else if (step + 1) * fixDuration > U64_MAX then Err(StepEndOverflow)
      else if FACTOR_DEN + apr * ((step + 1) * fixDuration) > U128_MAX then Err(PriceOverflow)
      else if basePrice * (FACTOR_DEN + apr * ((step + 1) * fixDuration)) > U128_MAX then Err(PriceOverflow)
      else
        var price := basePrice * (FACTOR_DEN + apr * ((step + 1) * fixDuration)) / FACTOR_DEN;
        if price > U64_MAX then Err(PriceOverflow)
        else
          DivAtLeast(now - baseTime, fixDuration, 0);
          MulMonotone(0, step + 1, 0, fixDuration);
          MulMonotone(0, apr, 0, (step + 1) * fixDuration);
          MulMonotone(0, basePrice, 0, FACTOR_DEN + apr * ((step + 1) * fixDuration));
          DivAtLeast(basePrice * (FACTOR_DEN + apr * ((step + 1) * fixDuration)), FACTOR_DEN, 0);
          Ok(price)
  }

  /** Rates are parts per million of a year of 365 days of 86400 seconds; the price is rounded down. */
  lemma SimpleInterestExact(apr: nat, basePrice: nat, elapsed: nat, price: nat)
    ensures price == SimpleInterest(apr, basePrice, elapsed)
       <==> price * (1_000_000 * (365 * 86_400)) <= basePrice * (1_000_000 * (365 * 86_400) + apr * elapsed)
            < (price + 1) * (1_000_000 * (365 * 86_400))
  {
    var worth := basePrice * (1_000_000 * (365 * 86_400) + apr * elapsed);
    DivAtLeast(worth, FACTOR_DEN, price);
    DivAtLeast(worth, FACTOR_DEN, price + 1);
  }

  lemma SimpleInterestMonotone(apr: nat, basePrice: nat, t: nat, t': nat)
    requires t <= t'
    ensures basePrice <= SimpleInterest(apr, basePrice, t) <= SimpleInterest(apr, basePrice, t')
  {
    MulMonotone(apr, apr, t, t');
    MulMonotone(0, apr, 0, t);
    MulMonotone(basePrice, basePrice, FACTOR_DEN, FACTOR_DEN + apr * t);
    MulMonotone(basePrice, basePrice, FACTOR_DEN + apr * t, FACTOR_DEN + apr * t');
    DivAtLeast(basePrice * (FACTOR_DEN + apr * t), FACTOR_DEN, basePrice);
    DivMonotone(basePrice * (FACTOR_DEN + apr * t), basePrice * (FACTOR_DEN + apr * t'), FACTOR_DEN);
  }

  /** The 128-bit growth factor cannot overflow for 64-bit inputs. */
  lemma FactorNeverOverflows(apr: u64, end: u64)
    ensures FACTOR_DEN + apr * end <= U128_MAX
  {
    MulMonotone(apr, U64_MAX, end, U64_MAX);
  }

  /**
   * Exactly when the oracle returns a price, and which: the only real limits are a 64-bit step end and a 64-bit
   * price.
   */
  lemma PriceCharacterised(apr: u64, basePrice: u64, baseTime: u64, fixDuration: u64, now: u64)
    requires baseTime <= now && fixDuration > 0
    ensures var end := VectorPricing.StepEnd(now - baseTime, fixDuration);
      CalculatePrice(apr, basePrice, baseTime, fixDuration, now) ==
      if end > U64_MAX then Err(StepEndOverflow)
      else if SimpleInterest(apr, basePrice, end) > U64_MAX then Err(PriceOverflow)
      else Ok(SimpleInterest(apr, basePrice, end))
  {
    var end := VectorPricing.StepEnd(now - baseTime, fixDuration);
    var step := (now - baseTime) / fixDuration;
    DivAtLeast(now - baseTime, fixDuration, 0);
    MulMonotone(step + 1, step + 1, 1, fixDuration);
    if end <= U64_MAX {
      FactorNeverOverflows(apr, end);
      var product := basePrice * (FACTOR_DEN + apr * end);
      if product > U128_MAX {
        DivAtLeast(product, FACTOR_DEN, U64_MAX + 1);
      }
    }
  }

  /** The price is never below the base price and never falls, across the base time included. */
  lemma PriceMonotone(apr: u64, basePrice: u64, baseTime: u64, fixDuration: u64, t: u64, t': u64)
    requires t <= t'
    requires CalculatePrice(apr, basePrice, baseTime, fixDuration, t).Ok?
    requires CalculatePrice(apr, basePrice, baseTime, fixDuration, t').Ok?
    ensures basePrice <= CalculatePrice(apr, basePrice, baseTime, fixDuration, t).value
                      <= CalculatePrice(apr, basePrice, baseTime, fixDuration, t').value
  {
    if baseTime <= t' {
      PriceCharacterised(apr, basePrice, baseTime, fixDuration, t');
      SimpleInterestMonotone(apr, basePrice, 0, VectorPricing.StepEnd(t' - baseTime, fixDuration));
      if baseTime <= t {
        PriceCharacterised(apr, basePrice, baseTime, fixDuration, t);
        VectorPricing.StepEndMonotone(t - baseTime, t' - baseTime, fixDuration);
        SimpleInterestMonotone(apr, basePrice, VectorPricing.StepEnd(t - baseTime, fixDuration),
                               VectorPricing.StepEnd(t' - baseTime, fixDuration));
      }
    }
  }

  /** A step price lies between the exact prices now and one duration from now. */
  lemma PriceBracketed(apr: u64, basePrice: u64, baseTime: u64, fixDuration: u64, now: u64)
    requires baseTime <= now
    ensures CalculatePrice(apr, basePrice, baseTime, fixDuration, now).Ok? ==>
      SimpleInterest(apr, basePrice, now - baseTime)
      <= CalculatePrice(apr, basePrice, baseTime, fixDuration, now).value
      <= SimpleInterest(apr, basePrice, now - baseTime + fixDuration)
  {
    if fixDuration > 0 {
      PriceCharacterised(apr, basePrice, baseTime, fixDuration, now);
      var end := VectorPricing.StepEnd(now - baseTime, fixDuration);
      SimpleInterestMonotone(apr, basePrice, now - baseTime, end);
      SimpleInterestMonotone(apr, basePrice, end, now - baseTime + fixDuration);
    }
  }

  // ---------------------------------------------------------------- the oracle against the program

  const SCALE := VectorPricing.INT_SCALE
  const DAY := VectorPricing.SECONDS_IN_DAY
  const DAILY_DEN := APR_SCALE * 365

  /** What one day adds to a price of one, in fixed point. */
  function Increment(apr: u64): nat
  {
    VectorPricing.DailyFactor(apr) - SCALE
  }

  /** At least what `n` days of compounding add beyond `n` times the daily increment. */
  function CompoundingGain(apr: u64, n: nat): nat
  {
    RoundedProduct(Increment(apr), Increment(apr), SCALE);
    MulMonotone(0, n / 2, 0, Increment(apr) * Increment(apr) / SCALE);
    (n / 2) * (Increment(apr) * Increment(apr) / SCALE)
  }

  lemma IncrementError(apr: u64)
    ensures 2 * SCALE * apr - DAILY_DEN <= 2 * DAILY_DEN * Increment(apr) <= 2 * SCALE * apr + DAILY_DEN
  {
    RoundedError(SCALE, apr, DAILY_DEN);
  }

  /**
   * Over any time the program's price makes up for simple interest and the compounding gain of its whole days, but for
   * one and a half price units and half a scale step per unit of price and day.
   */
  lemma ProgramAgainstSimpleInterest(apr: u64, basePrice: u64, elapsed: nat)
    ensures 2 * SCALE * DAY * SimpleInterest(apr, basePrice, elapsed)
      + 2 * DAY * (basePrice * CompoundingGain(apr, elapsed / DAY))
         <= 2 * SCALE * DAY * VectorPricing.UnboundedPrice(apr, basePrice, elapsed) + 3 * SCALE * DAY
           + basePrice * elapsed
  {
    var n, sec := elapsed / DAY, elapsed % DAY;
    ProgramBelow(apr, basePrice, n, sec);
    SimpleInterestAbove(apr, basePrice, elapsed);
    assert elapsed == n * DAY + sec;
  }

  /** The same, before the daily increment is compared with the yearly rate. */
  lemma ProgramBelow(apr: u64, basePrice: u64, n: nat, sec: nat)
    requires sec < DAY
    ensures VectorPricing.DayStart(apr, basePrice, n) <= VectorPricing.DayTarget(apr, basePrice, n)
    ensures 2 * SCALE * DAY * basePrice + 2 * ((basePrice * Increment(apr)) * (n * DAY + sec))
      + 2 * DAY * (basePrice * CompoundingGain(apr, n))
         <= 2 * SCALE * DAY * VectorPricing.Line(VectorPricing.DayStart(apr, basePrice, n),
                                                 VectorPricing.DayTarget(apr, basePrice, n), sec)
            + 3 * SCALE * DAY
  {
    WholeDays(apr, basePrice, n);
    PartialDay(apr, basePrice, n, sec);
    SplitElapsed(basePrice * Increment(apr), n, sec);
  }

  lemma WholeDays(apr: u64, basePrice: u64, n: nat)
    ensures 2 * SCALE * basePrice + 2 * ((basePrice * Increment(apr)) * n)
      + 2 * (basePrice * CompoundingGain(apr, n)) - SCALE
         <= 2 * SCALE * VectorPricing.DayStart(apr, basePrice, n)
  {
    PowerAtLeastQuadratic(Increment(apr), n, SCALE);
    RoundedError(basePrice, VectorPricing.Growth(apr, n), SCALE);
    WholeDaysBelow(basePrice, VectorPricing.Growth(apr, n), Increment(apr), n, CompoundingGain(apr, n),
                   VectorPricing.DayStart(apr, basePrice, n));
  }

  lemma DayAboveBase(apr: u64, basePrice: u64, n: nat)
    ensures basePrice <= VectorPricing.DayStart(apr, basePrice, n) <= VectorPricing.DayTarget(apr, basePrice, n)
  {
    VectorPricing.PriceAtDayStart(apr, basePrice, n);
    VectorPricing.PriceAtLeastBase(apr, basePrice, n * DAY);
    VectorPricing.TargetAboveStart(apr, basePrice, n);
  }

  lemma TargetError(apr: u64, basePrice: u64, n: nat)
    ensures var start, target := VectorPricing.DayStart(apr, basePrice, n), VectorPricing.DayTarget(apr, basePrice, n);
      2 * (start * (SCALE + Increment(apr))) - SCALE <= 2 * (target * SCALE)
        <= 2 * (start * (SCALE + Increment(apr))) + SCALE
  {
    RoundedError(VectorPricing.DayStart(apr, basePrice, n), VectorPricing.DailyFactor(apr), SCALE);
    assert SCALE + Increment(apr) == VectorPricing.DailyFactor(apr);
  }

  lemma PartialDay(apr: u64, basePrice: u64, n: nat, sec: nat)
    requires sec < DAY
    ensures basePrice <= VectorPricing.DayStart(apr, basePrice, n) <= VectorPricing.DayTarget(apr, basePrice, n)
    ensures 2 * ((basePrice * Increment(apr)) * sec) - 2 * SCALE * DAY
         <= 2 * SCALE * DAY
             * Rounded(VectorPricing.DayTarget(apr, basePrice, n) - VectorPricing.DayStart(apr, basePrice, n), sec, DAY)
  {
    var start, target := VectorPricing.DayStart(apr, basePrice, n), VectorPricing.DayTarget(apr, basePrice, n);
    DayAboveBase(apr, basePrice, n);
    TargetError(apr, basePrice, n);
    RoundedError(target - start, sec, DAY);
    PartialDayBelow(basePrice, Increment(apr), start, target, sec, Rounded(target - start, sec, DAY));
  }

  lemma SplitElapsed(x: int, n: int, sec: int)
    ensures x * (n * DAY + sec) == DAY * (x * n) + x * sec
  {
  }

  /** The whole days, from the lower bound on their growth and one rounding. */
  lemma WholeDaysBelow(b: nat, growth: nat, inc: nat, n: nat, gain: nat, start: nat)
    requires growth >= SCALE + inc * n + gain && 2 * (b * growth) - SCALE <= 2 * (start * SCALE)
    ensures 2 * SCALE * b + 2 * ((b * inc) * n) + 2 * (b * gain) - SCALE <= 2 * SCALE * start
  {
    MulMonotoneLeft(SCALE + inc * n + gain, growth, b);
    assert (SCALE + inc * n + gain) * b == SCALE * b + (inc * n) * b + b * gain;
    assert (inc * n) * b == (b * inc) * n;
  }

  /** The seconds after them, from two more roundings. */
  lemma PartialDayBelow(b: nat, inc: nat, start: nat, target: nat, sec: nat, part: nat)
    requires b <= start <= target && sec < DAY
    requires 2 * (start * (SCALE + inc)) - SCALE <= 2 * (target * SCALE)
    requires 2 * ((target - start) * sec) - DAY <= 2 * (part * DAY)
    ensures 2 * ((b * inc) * sec) - 2 * SCALE * DAY <= 2 * SCALE * DAY * part
  {
    MulMonotone(b, start, inc, inc);
    assert start * (SCALE + inc) == start * SCALE + start * inc;
    MulMonotoneLeft(2 * (b * inc) - SCALE, 2 * SCALE * (target - start), sec);
    assert (2 * (b * inc) - SCALE) * sec == 2 * ((b * inc) * sec) - SCALE * sec;
    assert (2 * SCALE * (target - start)) * sec == 2 * SCALE * ((target - start) * sec);
  }

  /** Simple interest by the rounded daily increment. */
  lemma SimpleInterestAbove(apr: u64, basePrice: u64, elapsed: nat)
    ensures 2 * SCALE * DAY * SimpleInterest(apr, basePrice, elapsed)
         <= 2 * SCALE * DAY * basePrice + 2 * ((basePrice * Increment(apr)) * elapsed) + basePrice * elapsed
  {
    IncrementError(apr);
    MulMonotone(0, basePrice, 0, elapsed);
    MulMonotoneLeft(2 * SCALE * apr - DAILY_DEN, 2 * DAILY_DEN * Increment(apr), basePrice * elapsed);
    DivBounds(basePrice * (FACTOR_DEN + apr * elapsed), FACTOR_DEN);
    Products(basePrice, apr, Increment(apr), elapsed);
  }

  lemma Products(b: int, apr: int, inc: int, e: int)
    ensures b * (FACTOR_DEN + apr * e) == FACTOR_DEN * b + apr * (b * e)
    ensures (2 * SCALE * apr - DAILY_DEN) * (b * e) == 2 * SCALE * (apr * (b * e)) - DAILY_DEN * (b * e)
    ensures (2 * SCALE * apr + DAILY_DEN) * (b * e) == 2 * SCALE * (apr * (b * e)) + DAILY_DEN * (b * e)
    ensures (2 * DAILY_DEN * inc) * (b * e) == 2 * DAILY_DEN * ((b * inc) * e)
  {
    assert b * (apr * e) == apr * (b * e);
    assert inc * (b * e) == (b * inc) * e;
  }

  /** Within the first day the two agree up to two units, and half a unit for every `10^18` of base price. */
  lemma FirstDayAgreement(apr: u64, basePrice: u64, elapsed: nat)
    requires elapsed < DAY
    ensures var program, simple := VectorPricing.UnboundedPrice(apr, basePrice, elapsed),
      SimpleInterest(apr, basePrice, elapsed);
      && 2 * SCALE * (program - simple) < 4 * SCALE + basePrice
      && 2 * SCALE * (simple - program) < 4 * SCALE + basePrice
      && (basePrice <= SCALE ==> -2 <= program - simple <= 2)
  {
    FirstDayProgram(apr, basePrice, elapsed);
    SimpleInterestBelow(apr, basePrice, elapsed);
    MulMonotone(basePrice, basePrice, elapsed, DAY - 1);
    ProgramAgainstSimpleInterest(apr, basePrice, elapsed);
    MulMonotone(0, basePrice, 0, CompoundingGain(apr, elapsed / DAY));
  }

  lemma StartsAtBase(apr: u64, basePrice: u64)
    ensures VectorPricing.DayStart(apr, basePrice, 0) == basePrice
  {
    RoundedUnit(basePrice, SCALE);
  }

  lemma PriceOnFirstDay(apr: u64, basePrice: u64, sec: nat)
    requires sec < DAY
    ensures basePrice <= VectorPricing.DayTarget(apr, basePrice, 0)
    ensures VectorPricing.UnboundedPrice(apr, basePrice, sec)
         == basePrice + Rounded(VectorPricing.DayTarget(apr, basePrice, 0) - basePrice, sec, DAY)
  {
    StartsAtBase(apr, basePrice);
    DayAboveBase(apr, basePrice, 0);
    assert sec / DAY == 0 && sec % DAY == sec;
  }

  lemma FirstDayProgram(apr: u64, basePrice: u64, sec: nat)
    requires sec < DAY
    ensures 2 * SCALE * DAY * VectorPricing.UnboundedPrice(apr, basePrice, sec)
         <= 2 * SCALE * DAY * basePrice + 2 * ((basePrice * Increment(apr)) * sec) + 2 * SCALE * DAY
  {
    StartsAtBase(apr, basePrice);
    PartialDayAtMost(apr, basePrice, 0, sec);
    PriceOnFirstDay(apr, basePrice, sec);
  }

  /** Day `n` adds at most its start price's increment, in proportion, and one unit. */
  lemma PartialDayAtMost(apr: u64, basePrice: u64, n: nat, sec: nat)
    requires sec < DAY
    ensures basePrice <= VectorPricing.DayStart(apr, basePrice, n) <= VectorPricing.DayTarget(apr, basePrice, n)
    ensures
      2 * SCALE * DAY
        * Rounded(VectorPricing.DayTarget(apr, basePrice, n) - VectorPricing.DayStart(apr, basePrice, n), sec, DAY)
      <= 2 * ((VectorPricing.DayStart(apr, basePrice, n) * Increment(apr)) * sec) + 2 * SCALE * DAY
  {
    var start, target := VectorPricing.DayStart(apr, basePrice, n), VectorPricing.DayTarget(apr, basePrice, n);
    DayAboveBase(apr, basePrice, n);
    TargetError(apr, basePrice, n);
    RoundedError(target - start, sec, DAY);
    PartialDayAbove(start, Increment(apr), target, sec, Rounded(target - start, sec, DAY));
  }

  lemma PartialDayAbove(b: nat, inc: nat, target: nat, sec: nat, part: nat)
    requires b <= target && sec < DAY
    requires 2 * (target * SCALE) <= 2 * (b * (SCALE + inc)) + SCALE
    requires 2 * (part * DAY) <= 2 * ((target - b) * sec) + DAY
    ensures 2 * SCALE * DAY * part <= 2 * ((b * inc) * sec) + 2 * SCALE * DAY
  {
    assert b * (SCALE + inc) == b * SCALE + b * inc;
    MulMonotoneLeft(2 * SCALE * (target - b), 2 * (b * inc) + SCALE, sec);
    assert (2 * (b * inc) + SCALE) * sec == 2 * ((b * inc) * sec) + SCALE * sec;
    assert (2 * SCALE * (target - b)) * sec == 2 * SCALE * ((target - b) * sec);
  }

  lemma SimpleInterestBelow(apr: u64, basePrice: u64, elapsed: nat)
    ensures 2 * SCALE * DAY * basePrice + 2 * ((basePrice * Increment(apr)) * elapsed)
          < 2 * SCALE * DAY * (SimpleInterest(apr, basePrice, elapsed) + 1) + basePrice * elapsed
  {
    IncrementError(apr);
    MulMonotone(0, basePrice, 0, elapsed);
    MulMonotoneLeft(2 * DAILY_DEN * Increment(apr), 2 * SCALE * apr + DAILY_DEN, basePrice * elapsed);
    DivBounds(basePrice * (FACTOR_DEN + apr * elapsed), FACTOR_DEN);
    Products(basePrice, apr, Increment(apr), elapsed);
  }

  // ---------------------------------------------------------------- how far compounding exceeds simple interest

  /** What `n` days add to a price of one without compounding, in fixed point, with one unit of rounding a day. */
  function LinearGrowth(apr: u64, n: nat): nat
  {
    MulMonotone(0, n, 0, Increment(apr) + 1);
    n * (Increment(apr) + 1)
  }

  lemma GrowthAtMostGeometric(apr: u64, n: nat)
    ensures AtMostGeometric(VectorPricing.Growth(apr, n), LinearGrowth(apr, n), SCALE)
  {
    var inc := Increment(apr);
    MulMonotone(0, inc, 0, inc);
    assert (SCALE + inc) * (SCALE - inc) == SCALE * SCALE - inc * inc;
    PowerAtMostGeometric(SCALE, 0, VectorPricing.DailyFactor(apr), inc, n, SCALE);
  }

  lemma StartAtMostGeometric(apr: u64, basePrice: u64, n: nat)
    requires LinearGrowth(apr, n) < SCALE
    ensures var x := SCALE - LinearGrowth(apr, n);
      2 * (VectorPricing.DayStart(apr, basePrice, n) * x) <= 2 * SCALE * basePrice + x
  {
    GrowthAtMostGeometric(apr, n);
    RoundedError(basePrice, VectorPricing.Growth(apr, n), SCALE);
    StartFromGrowth(basePrice, VectorPricing.Growth(apr, n), VectorPricing.DayStart(apr, basePrice, n),
                    SCALE - LinearGrowth(apr, n));
  }

  lemma StartFromGrowth(b: nat, growth: nat, start: nat, x: nat)
    requires growth * x <= SCALE * SCALE && 2 * (start * SCALE) <= 2 * (b * growth) + SCALE
    ensures 2 * (start * x) <= 2 * SCALE * b + x
  {
    MulMonotoneLeft(growth * x, SCALE * SCALE, b);
    MulMonotoneLeft(2 * (start * SCALE), 2 * (b * growth) + SCALE, x);
    assert (growth * x) * b == (b * growth) * x;
    assert (2 * (start * SCALE)) * x == 2 * SCALE * (start * x);
    assert (2 * (b * growth) + SCALE) * x == 2 * ((b * growth) * x) + SCALE * x;
  }

  /**
   * While simple growth stays below one, the compounded price exceeds simple interest by at most the square of that
   * growth, relative to what it leaves of one, up to a unit for every day and unit of price in `10^18`, and rounding.
   */
  lemma CompoundingBounded(apr: u64, basePrice: u64, elapsed: nat, program: nat, simple: nat)
    requires LinearGrowth(apr, elapsed / DAY) < SCALE
    requires program == VectorPricing.UnboundedPrice(apr, basePrice, elapsed)
      && simple == SimpleInterest(apr, basePrice, elapsed)
    ensures ExcessBounded(apr, basePrice, elapsed, program - simple)
  {
    var n, sec := elapsed / DAY, elapsed % DAY;
    assert elapsed == n * DAY + sec;
    PriceFromStart(apr, basePrice, elapsed, program);
    StartAtMostGeometric(apr, basePrice, n);
    SimpleInterestBelow(apr, basePrice, elapsed);
    ExcessOfParts(basePrice, Increment(apr), n, sec, SCALE - LinearGrowth(apr, n),
                  VectorPricing.DayStart(apr, basePrice, n),
                  program, simple);
  }

  lemma PriceFromStart(apr: u64, basePrice: u64, elapsed: nat, program: nat)
    requires program == VectorPricing.UnboundedPrice(apr, basePrice, elapsed)
    ensures 2 * SCALE * DAY * program
         <= 2 * SCALE * DAY * VectorPricing.DayStart(apr, basePrice, elapsed / DAY)
            + 2 * ((VectorPricing.DayStart(apr, basePrice, elapsed / DAY) * Increment(apr)) * (elapsed % DAY))
              + 2 * SCALE * DAY
  {
    PartialDayAtMost(apr, basePrice, elapsed / DAY, elapsed % DAY);
  }

  /** From the bounds on the day's start, the price and simple interest to the bound on the excess. */
  lemma ExcessOfParts(b: nat, inc: nat, n: nat, sec: nat, x: nat, start: nat, program: nat, simple: nat)
    requires x == SCALE - n * (inc + 1) && 2 * (start * x) <= 2 * SCALE * b + x
    requires 2 * SCALE * DAY * program <= 2 * SCALE * DAY * start + 2 * ((start * inc) * sec) + 2 * SCALE * DAY
    requires var e := n * DAY + sec;
      2 * SCALE * DAY * b + 2 * ((b * inc) * e) < 2 * SCALE * DAY * (simple + 1) + b * e
    ensures var e := n * DAY + sec;
      2 * SCALE * DAY * (x * (program - simple))
      <= 2 * ((b * (n * (inc + 1))) * (inc * e)) + 2 * SCALE * DAY * (b * n) + x * (5 * SCALE * DAY + inc * sec + b * e)
  {
    PriceTimesRest(start, inc, sec, x, 2 * SCALE * b, program);
    SimpleTimesRest(b, inc, n * DAY + sec, x, simple);
    ExcessIdentity(b, inc, n, sec, x);
    TimesDifference(x, program, simple);
  }

  lemma TimesDifference(x: int, a: int, b: int)
    ensures x * (a - b) == x * a - x * b
  {
  }

  /** The bound on the excess, multiplied out. */
  ghost predicate ExcessBounded(apr: u64, basePrice: nat, elapsed: nat, excess: int)
  {
    var n, inc := elapsed / DAY, Increment(apr);
    var x := SCALE - LinearGrowth(apr, n);
    2 * SCALE * DAY * (x * excess)
    <= 2 * ((basePrice * LinearGrowth(apr, n)) * (inc * elapsed)) + 2 * SCALE * DAY * (basePrice * n)
       + x * (5 * SCALE * DAY + inc * (elapsed % DAY) + basePrice * elapsed)
  }

  /** The exact power of `n` days' growth with all upper rounding errors, over the denominator `Denominator(n)`. */
  function GrowthWithErrors(apr: u64, n: nat): (e: nat)
    requires n > 0
  {
    ExpNonNegative(VectorPricing.DailyFactor(apr), n);
    ExpNonNegative(2 * SCALE + 1, n - 1);
    MulMonotone(0, Exp(VectorPricing.DailyFactor(apr), n), 0, Exp(2 * SCALE + 1, n - 1));
    Exp(VectorPricing.DailyFactor(apr), n) * Exp(2 * SCALE + 1, n - 1)
  }

  function Denominator(n: nat): (d: nat)
    requires n > 0
  {
    ExpNonNegative(2 * SCALE * SCALE, n - 1);
    SCALE * Exp(2 * SCALE * SCALE, n - 1)
  }

  /** For any time from the first day boundary on: at most exact compounding with all its rounding errors upwards. */
  lemma ProgramAtMostCompounding(apr: u64, basePrice: u64, elapsed: nat)
    requires elapsed >= DAY
    ensures elapsed / DAY > 0
    ensures var n := elapsed / DAY;
      2 * SCALE * DAY * (Denominator(n) * VectorPricing.UnboundedPrice(apr, basePrice, elapsed))
      <= (2 * (basePrice * GrowthWithErrors(apr, n)) + Denominator(n)) * (SCALE * DAY
        + Increment(apr) * (elapsed % DAY))
         + 2 * SCALE * DAY * Denominator(n)
  {
    var n, sec := elapsed / DAY, elapsed % DAY;
    var start := VectorPricing.DayStart(apr, basePrice, n);
    DivAtLeast(elapsed, DAY, 1);
    PriceFromStart(apr, basePrice, elapsed, VectorPricing.UnboundedPrice(apr, basePrice, elapsed));
    StartAtMostCompounding(apr, basePrice, n);
    MulMonotone(0, basePrice, 0, GrowthWithErrors(apr, n));
    PriceTimesRest(start, Increment(apr), sec, Denominator(n), 2 * (basePrice * GrowthWithErrors(apr, n)),
                   VectorPricing.UnboundedPrice(apr, basePrice, elapsed));
  }

  lemma StartAtMostCompounding(apr: u64, basePrice: u64, n: nat)
    requires n > 0
    ensures 2 * (VectorPricing.DayStart(apr, basePrice, n) * Denominator(n))
         <= 2 * (basePrice * GrowthWithErrors(apr, n)) + Denominator(n)
  {
    PowerErrorBound(VectorPricing.DailyFactor(apr), n, SCALE);
    RoundedError(basePrice, VectorPricing.Growth(apr, n), SCALE);
    ExpNonNegative(2 * SCALE * SCALE, n - 1);
    StartTimes(basePrice, VectorPricing.Growth(apr, n), VectorPricing.DayStart(apr, basePrice, n),
               Exp(2 * SCALE * SCALE, n - 1), GrowthWithErrors(apr, n));
  }

  lemma StartTimes(b: nat, growth: nat, start: nat, m: nat, e: nat)
    requires growth * m <= e && 2 * (start * SCALE) <= 2 * (b * growth) + SCALE
    ensures 2 * (start * (SCALE * m)) <= 2 * (b * e) + SCALE * m
  {
    MulMonotoneLeft(growth * m, e, b);
    MulMonotoneLeft(2 * (start * SCALE), 2 * (b * growth) + SCALE, m);
    assert (growth * m) * b == (b * growth) * m;
    assert (2 * (b * growth) + SCALE) * m == 2 * ((b * growth) * m) + SCALE * m;
    assert (2 * (start * SCALE)) * m == 2 * (start * (SCALE * m));
  }

  lemma PriceTimesRest(start: nat, inc: nat, sec: nat, x: nat, top: nat, price: nat)
    requires 2 * SCALE * DAY * price <= 2 * SCALE * DAY * start + 2 * ((start * inc) * sec) + 2 * SCALE * DAY
    requires 2 * (start * x) <= top + x
    ensures 2 * SCALE * DAY * (x * price) <= (top + x) * (SCALE * DAY + inc * sec) + 2 * SCALE * DAY * x
  {
    MulMonotone(0, inc, 0, sec);
    MulMonotoneLeft(2 * SCALE * DAY * price, 2 * SCALE * DAY * start + 2 * ((start * inc) * sec) + 2 * SCALE * DAY, x);
    MulMonotoneLeft(2 * (start * x), top + x, SCALE * DAY + inc * sec);
    RestProducts(start, inc, sec, x, price);
  }

  lemma RestProducts(start: int, inc: int, sec: int, x: int, price: int)
    ensures (2 * SCALE * DAY * price) * x == 2 * SCALE * DAY * (x * price)
    ensures (2 * SCALE * DAY * start + 2 * ((start * inc) * sec) + 2 * SCALE * DAY) * x
         == (2 * (start * x)) * (SCALE * DAY + inc * sec) + 2 * SCALE * DAY * x
  {
    assert ((start * inc) * sec) * x == (start * x) * (inc * sec);
  }

  lemma SimpleTimesRest(b: nat, inc: nat, elapsed: nat, x: nat, simple: nat)
    requires 2 * SCALE * DAY * b + 2 * ((b * inc) * elapsed) < 2 * SCALE * DAY * (simple + 1) + b * elapsed
    ensures 2 * SCALE * DAY * (x * b) + 2 * (x * ((b * inc) * elapsed)) - x * (b * elapsed) - 2 * SCALE * DAY * x
         <= 2 * SCALE * DAY * (x * simple)
  {
    MulMonotoneLeft(2 * SCALE * DAY * b + 2 * ((b * inc) * elapsed), 2 * SCALE * DAY * (simple + 1) + b * elapsed, x);
    assert (2 * SCALE * DAY * b + 2 * ((b * inc) * elapsed)) * x
      == 2 * SCALE * DAY * (x * b) + 2 * (x * ((b * inc) * elapsed));
    assert (2 * SCALE * DAY * (simple + 1) + b * elapsed) * x
      == 2 * SCALE * DAY * (x * simple) + 2 * SCALE * DAY * x + x * (b * elapsed);
  }

  /** The compounded bound less the simple one, as the square of the growth and rounding terms. */
  lemma ExcessIdentity(b: int, inc: int, n: int, sec: int, x: int)
    requires x == SCALE - n * (inc + 1)
    ensures var e := n * DAY + sec;
      (2 * SCALE * b + x) * (SCALE * DAY + inc * sec) + 4 * SCALE * DAY * x
        - (2 * SCALE * DAY * (x * b) + 2 * (x * ((b * inc) * e)) - x * (b * e))
      == 2 * ((b * (n * (inc + 1))) * (inc * e)) + 2 * SCALE * DAY * (b * n)
         + x * (5 * SCALE * DAY + inc * sec + b * e)
  {
    var e := n * DAY + sec;
    ExpandStart(b, inc * sec, x);
    ExpandRest(x, inc * sec, b * e);
    RestOfBase(b, inc, n, x);
    RestOfGrowth((b * inc) * e, n * (inc + 1), x);
    MoveGrowth(n * (inc + 1), b, inc, e);
    SplitElapsed(b * inc, n, sec);
    Regroup(b, inc, sec);
  }

  lemma ExpandStart(b: int, part: int, x: int)
    ensures (2 * SCALE * b + x) * (SCALE * DAY + part)
         == 2 * SCALE * SCALE * DAY * b + 2 * SCALE * (b * part) + SCALE * DAY * x + x * part
  {
  }

  lemma ExpandRest(x: int, part: int, whole: int)
    ensures x * (5 * SCALE * DAY + part + whole) == 5 * SCALE * DAY * x + x * part + x * whole
  {
  }

  lemma RestOfBase(b: int, inc: int, n: int, x: int)
    requires x == SCALE - n * (inc + 1)
    ensures x * b == SCALE * b - (b * inc) * n - b * n
  {
    assert (n * (inc + 1)) * b == (b * inc) * n + b * n;
    assert x * b == SCALE * b - (n * (inc + 1)) * b;
  }

  lemma RestOfGrowth(y: int, g: int, x: int)
    requires x == SCALE - g
    ensures x * y == SCALE * y - g * y
  {
  }

  lemma MoveGrowth(g: int, b: int, inc: int, e: int)
    ensures g * ((b * inc) * e) == (b * g) * (inc * e)
  {
    assert (b * inc) * e == b * (inc * e);
    assert g * (b * (inc * e)) == (b * g) * (inc * e);
  }

  /** Before the base time the two never agree: the oracle returns the base price, the program none. */
  lemma NeverAgreeBeforeBaseTime(apr: u64, basePrice: u64, baseTime: u64, fixDuration: u64, now: u64)
    requires now < baseTime
    ensures CalculatePrice(apr, basePrice, baseTime, fixDuration, now) == Ok(basePrice)
    ensures VectorPricing.StepPriceAt(apr, basePrice, baseTime, fixDuration, now) == Err(VectorPricing.NoActiveVector)
  {
  }

  /** Without a rate they agree from the base time on: on the base price, or on failing where the step end overflows. */
  lemma AgreeWithoutRate(basePrice: u64, baseTime: u64, fixDuration: u64, now: u64)
    requires baseTime <= now && fixDuration > 0
    ensures var end := VectorPricing.StepEnd(now - baseTime, fixDuration);
      var oracle, program := CalculatePrice(0, basePrice, baseTime, fixDuration, now),
                             VectorPricing.StepPriceAt(0, basePrice, baseTime, fixDuration, now);
      if end <= U64_MAX then oracle == Ok(basePrice) && program == Ok(basePrice) else oracle.Err? && program.Err?
  {
    PriceCharacterised(0, basePrice, baseTime, fixDuration, now);
    var end := VectorPricing.StepEnd(now - baseTime, fixDuration);
    SimpleInterestMonotone(0, basePrice, 0, end);
    DivUnique(basePrice * (FACTOR_DEN + 0 * end), FACTOR_DEN, basePrice);
    var step := (now - baseTime) / fixDuration;
    DivAtLeast(now - baseTime, fixDuration, 0);
    MulMonotone(step + 1, step + 1, 1, fixDuration);
  }

  /**
   * How a program price and a simple-interest price at one time compare: within a first day they agree up to two
   * units (for base prices up to `10^18`); at any time the program is not below by more than a rounding term (one
   * unit, while price times days stays below `10^18`); it is strictly above once the compounding gain exceeds that
   * term; and while simple growth stays below one, it is above by at most the square of that growth and rounding
   * terms.
   */
  ghost predicate Compared(apr: u64, basePrice: u64, end: nat, simple: nat, program: nat)
  {
    && (end < DAY && basePrice <= SCALE ==> -2 <= program - simple <= 2)
    && 2 * SCALE * DAY * simple + 2 * DAY * (basePrice * CompoundingGain(apr, end / DAY))
       <= 2 * SCALE * DAY * program + 3 * SCALE * DAY + basePrice * end
    && (basePrice * end < SCALE * DAY ==> simple <= program + 1)
    && (2 * DAY * (basePrice * CompoundingGain(apr, end / DAY)) > 3 * SCALE * DAY + basePrice * end
      ==> simple < program)
    && (LinearGrowth(apr, end / DAY) < SCALE ==> ExcessBounded(apr, basePrice, end, program - simple))
  }

  /** So the prices compare that oracle and program publish. */
  lemma PublishedPricesCompared(apr: u64, basePrice: u64, baseTime: u64, fixDuration: u64, now: u64)
    requires baseTime <= now && fixDuration > 0
    ensures var end := VectorPricing.StepEnd(now - baseTime, fixDuration);
      var oracle, program := CalculatePrice(apr, basePrice, baseTime, fixDuration, now),
                             VectorPricing.StepPriceAt(apr, basePrice, baseTime, fixDuration, now);
      oracle.Ok? && program.Ok? ==> Compared(apr, basePrice, end, oracle.value, program.value)
  {
    var end := VectorPricing.StepEnd(now - baseTime, fixDuration);
    PriceCharacterised(apr, basePrice, baseTime, fixDuration, now);
    VectorPricing.StepPriceIsEndOfStep(apr, basePrice, baseTime, fixDuration, now);
    PricesCompared(apr, basePrice, end);
  }

  lemma PricesCompared(apr: u64, basePrice: u64, end: nat)
    ensures Compared(apr, basePrice, end, SimpleInterest(apr, basePrice, end),
                     VectorPricing.UnboundedPrice(apr, basePrice, end))
  {
    ProgramAgainstSimpleInterest(apr, basePrice, end);
    MulMonotone(0, basePrice, 0, CompoundingGain(apr, end / DAY));
    if end < DAY {
      FirstDayAgreement(apr, basePrice, end);
    }
    if LinearGrowth(apr, end / DAY) < SCALE {
      CompoundingBounded(apr, basePrice, end, VectorPricing.UnboundedPrice(apr, basePrice, end),
                         SimpleInterest(apr, basePrice, end));
    }
  }

  /** The oracle does not replicate the program: after two days at 9.76% they differ. */
  lemma OracleDiffersFromProgram()
    ensures CalculatePrice(97_600, 1_000_000_000, 0, 86_400, 86_400) == Ok(1_000_534_794)
    ensures VectorPricing.StepPriceAt(97_600, 1_000_000_000, 0, 86_400, 86_400) == Ok(1_000_534_866)
  {
    var f, f2 := 1_000_267_397_260_273_973, 1_000_534_866_021_842_748;
    assert VectorPricing.DailyFactor(97_600) == f;
    assert MulDivRound(f, f, VectorPricing.INT_SCALE) == Some(f2);
    assert MulDivRound(VectorPricing.INT_SCALE, f2, VectorPricing.INT_SCALE) == Some(f2);
    assert PowerChecked(f2, f2, 0, VectorPricing.INT_SCALE) == Some(f2);
    assert PowerChecked(VectorPricing.INT_SCALE, f2, 1, VectorPricing.INT_SCALE) == Some(f2);
    assert PowerChecked(VectorPricing.INT_SCALE, f, 2, VectorPricing.INT_SCALE) == Some(f2);
  }
}
