/** Fees and token-out amounts (programs/onreapp/src/utils/token_utils.rs), against the fuzz oracle's versions. */
module Exchange {
  import opened Common

  const MAX_BASIS_POINTS := 10_000
  const PRICE_DECIMALS := 9
  const MAX_TOKEN_DECIMALS := 18

  datatype ExchangeError = MathOverflow | ZeroPriceNotAllowed | DecimalsExceedMax | ResultOverflow | InvalidAmount

  datatype Fees = Fees(fee: u64, net: u64)

  /** The fee before the 64-bit cast: `amount * bps / 10000`, rounded up. */
  function CeilFee(amount: nat, bps: nat): nat
  {
    (amount * bps + (MAX_BASIS_POINTS - 1)) / MAX_BASIS_POINTS
  }

  /** `ceil_div_u128`. */
  function CeilDiv(numerator: u128, denominator: u128): (r: Option<u128>)
    ensures r.Some? <==> denominator > 0 && numerator + denominator <= 0x1_0000_0000_0000_0000_0000_0000_0000_0000
    ensures r.Some? ==> (r.value - 1) * denominator < numerator <= r.value * denominator
  {
    if denominator == 0 then None
    else if numerator + (denominator - 1) > U128_MAX then None
    else
      DivAtLeast(numerator + (denominator - 1), denominator, 0);
      MulMonotone(1, denominator, 0, U128_MAX);
      DivAtLeast(numerator + (denominator - 1), denominator, U128_MAX + 1);
      DivBounds(numerator + (denominator - 1), denominator);
      Some((numerator + (denominator - 1)) / denominator)
  }

  /** `calculate_fees`; the cast to 64 bits keeps only the low bits of the fee. */
  function CalculateFees(amount: u64, bps: u16): Result<Fees, ExchangeError>
  {
    MulMonotone(amount, U64_MAX, bps, U16_MAX);
    match CeilDiv(amount * bps, MAX_BASIS_POINTS)
    case None => Err(MathOverflow)
    case Some(wide) =>
      var fee := wide % (U64_MAX + 1);
      if amount < fee then Err(MathOverflow) else Ok(Fees(fee, amount - fee))
  }

  /** `calculate_token_out_amount`. */
  function TokenOutAmount(amount: u64, price: u64, decimalsIn: u8, decimalsOut: u8): Result<u64, ExchangeError>
  {
    if price == 0 then Err(ZeroPriceNotAllowed)
    else if decimalsIn > MAX_TOKEN_DECIMALS || decimalsOut > MAX_TOKEN_DECIMALS then Err(DecimalsExceedMax)
    else if amount * Exp(10, decimalsOut + PRICE_DECIMALS) > U128_MAX then Err(MathOverflow)
    else if price * Exp(10, decimalsIn) > U128_MAX then Err(MathOverflow)
    else
      DenominatorPositive(price, decimalsIn);
      var result := amount * Exp(10, decimalsOut + PRICE_DECIMALS) / (price * Exp(10, decimalsIn));
      if result > U64_MAX then Err(ResultOverflow)
      else if result <= 0 then Err(InvalidAmount)
      else Ok(result)
  }

  datatype OraclePanic = NumeratorOverflow | DenominatorOverflow | DivisionByZero | OutOverflow

  /** The oracle's `calculate_token_out`, with every `expect` and overflow as an error. */
  function OracleTokenOut(amount: u64, price: u64, decimalsIn: u8, decimalsOut: u8): Result<u64, OraclePanic>
  {
    var scaled := amount * Exp(10, PRICE_DECIMALS);
    if Exp(10, decimalsOut) > U128_MAX || scaled * Exp(10, decimalsOut) > U128_MAX then Err(NumeratorOverflow)
    else if Exp(10, decimalsIn) > U128_MAX || price * Exp(10, decimalsIn) > U128_MAX then Err(DenominatorOverflow)
    else if price * Exp(10, decimalsIn) == 0 then Err(DivisionByZero)
    else
      var tokenOut := scaled * Exp(10, decimalsOut) / (price * Exp(10, decimalsIn));
      if tokenOut > U64_MAX then Err(OutOverflow)
      else
        ExpPositive(10, PRICE_DECIMALS);
        ExpPositive(10, decimalsOut);
        ExpPositive(10, decimalsIn);
        MulMonotone(0, amount, 0, Exp(10, PRICE_DECIMALS));
        MulMonotone(0, scaled, 0, Exp(10, decimalsOut));
        MulMonotone(0, price, 0, Exp(10, decimalsIn));
        DivAtLeast(scaled * Exp(10, decimalsOut), price * Exp(10, decimalsIn), 0);
        Ok(tokenOut)
  }

  /** The oracle's floor fee. */
  function OracleFee(amount: u64, bps: u16): nat
  {
    MulMonotone(0, amount, 0, bps);
    DivAtLeast(amount * bps, MAX_BASIS_POINTS, 0);
    amount * bps / MAX_BASIS_POINTS
  }

  lemma DenominatorPositive(price: u64, decimals: nat)
    requires price > 0
    ensures price * Exp(10, decimals) >= 1
  {
    ExpPositive(10, decimals);
    MulMonotone(1, price, 1, Exp(10, decimals));
  }

  // ---------------------------------------------------------------- fees

  /** The fee covers the exact fraction and exceeds it by less than one unit. */
  lemma CeilFeeBounds(amount: nat, bps: nat)
    ensures amount * bps <= CeilFee(amount, bps) * 10_000 < amount * bps + 10_000
  {
    DivBounds(amount * bps + (MAX_BASIS_POINTS - 1), MAX_BASIS_POINTS);
  }

  /**
   * The split is the intended one (the rounded-up fee and the rest) exactly when the rate is at most 100% or there is
   * nothing to split. Above that the call fails, except where the 64-bit cast truncates the fee below the amount.
   */
  lemma FeesCharacterised(amount: u64, bps: u16)
    ensures CeilFee(amount, bps) <= amount <==> bps <= 10_000 || amount == 0
    ensures CeilFee(amount, bps) <= amount ==>
      CalculateFees(amount, bps) == Ok(Fees(CeilFee(amount, bps), amount - CeilFee(amount, bps)))
    ensures CeilFee(amount, bps) > amount ==>
      CalculateFees(amount, bps) == (var low := CeilFee(amount, bps) % (U64_MAX + 1);
                                     if low <= amount then Ok(Fees(low, amount - low)) else Err(MathOverflow))
    ensures amount < CeilFee(amount, bps) <= U64_MAX ==> CalculateFees(amount, bps) == Err(MathOverflow)
  {
    MulMonotone(amount, U64_MAX, bps, U16_MAX);
    CeilFeeBounds(amount, bps);
    if bps <= MAX_BASIS_POINTS {
      MulMonotone(amount, amount, bps, MAX_BASIS_POINTS);
    } else {
      MulMonotone(amount, amount, MAX_BASIS_POINTS + 1, bps);
    }
  }

  /** Success, at any rate: the fee is the rounded-up fraction less whole multiples of 2^64, and within the amount. */
  lemma FeesExact(amount: u64, bps: u16, fee: u64, net: u64)
    ensures CalculateFees(amount, bps) == Ok(Fees(fee, net))
       <==> fee == CeilFee(amount, bps) % 0x1_0000_0000_0000_0000 && fee + net == amount
  {
    FeesCharacterised(amount, bps);
    if CeilFee(amount, bps) <= amount {
      assert CeilFee(amount, bps) % 0x1_0000_0000_0000_0000 == CeilFee(amount, bps);
    }
  }

  /** Above 100% the cast can turn an impossible fee into a plausible one. */
  lemma TruncatedFee()
    ensures CalculateFees(U64_MAX, 20_000) == Ok(Fees(U64_MAX - 1, 1))
    ensures CeilFee(U64_MAX, 20_000) == 2 * U64_MAX
  {
  }

  /** The program's fee exceeds the oracle's by one unit, or by none exactly when the fraction is whole. */
  lemma FeeAgainstOracle(amount: u64, bps: u16)
    requires bps <= MAX_BASIS_POINTS
    ensures CalculateFees(amount, bps).Ok?
    ensures var fee := CalculateFees(amount, bps).value.fee;
      fee == OracleFee(amount, bps) + if amount * bps % MAX_BASIS_POINTS == 0 then 0 else 1
  {
    FeesCharacterised(amount, bps);
    CeilFeeBounds(amount, bps);
  }

  // ---------------------------------------------------------------- two implementations

  lemma NumeratorsAgree(amount: u64, decimalsOut: u8)
    ensures amount * Exp(10, PRICE_DECIMALS) * Exp(10, decimalsOut) == amount * Exp(10, decimalsOut + PRICE_DECIMALS)
  {
    ExpAdds(10, decimalsOut, PRICE_DECIMALS);
    assert (amount * Exp(10, PRICE_DECIMALS)) * Exp(10, decimalsOut)
      == amount * (Exp(10, decimalsOut) * Exp(10, PRICE_DECIMALS));
  }

  lemma {:induction false} PowersOfTenFit(decimals: nat)
    requires decimals <= MAX_TOKEN_DECIMALS
    ensures Exp(10, decimals) <= Exp(10, MAX_TOKEN_DECIMALS) == 1_000_000_000_000_000_000
  {
    ExpAdds(10, MAX_TOKEN_DECIMALS - decimals, decimals);
    ExpPositive(10, MAX_TOKEN_DECIMALS - decimals);
    ExpPositive(10, decimals);
    MulMonotone(1, Exp(10, MAX_TOKEN_DECIMALS - decimals), Exp(10, decimals), Exp(10, decimals));
    assert Exp(10, 9) == 1_000_000_000;
    ExpAdds(10, 9, 9);
  }

  /** The program succeeds with `r` exactly when the oracle returns a positive `r` and the decimals are admissible. */
  lemma TokenOutAgreesWithOracle(amount: u64, price: u64, decimalsIn: u8, decimalsOut: u8, r: u64)
    ensures TokenOutAmount(amount, price, decimalsIn, decimalsOut) == Ok(r)
       <==> (OracleTokenOut(amount, price, decimalsIn, decimalsOut) == Ok(r) && r > 0
             && decimalsIn <= MAX_TOKEN_DECIMALS && decimalsOut <= MAX_TOKEN_DECIMALS)
  {
    NumeratorsAgree(amount, decimalsOut);
    if decimalsIn <= MAX_TOKEN_DECIMALS && decimalsOut <= MAX_TOKEN_DECIMALS {
      PowersOfTenFit(decimalsIn);
      PowersOfTenFit(decimalsOut);
      ExpPositive(10, decimalsIn);
      if price > 0 {
        DenominatorPositive(price, decimalsIn);
      }
    }
  }

  // ---------------------------------------------------------------- what an amount buys

  /**
   * `out` units of token_out is what `amount` units of token_in are worth, rounded down but not to nothing, at a price
   * whose unit is a billionth; and nothing leaves its width.
   */
  ghost predicate IsOutput(amount: nat, price: nat, decimalsIn: nat, decimalsOut: nat, out: nat)
  {
    var worth, unit := amount * (1_000_000_000 * Exp(10, decimalsOut)), price * Exp(10, decimalsIn);
    && price > 0 && decimalsIn <= 18 && decimalsOut <= 18
    && worth <= U128_MAX && unit <= U128_MAX
    && 0 < out <= U64_MAX
    && out * unit <= worth < (out + 1) * unit
  }

  /** The nine decimals of a price. */
  lemma NumeratorInBillions(amount: nat, decimalsOut: nat)
    ensures amount * Exp(10, decimalsOut + PRICE_DECIMALS) == amount * (1_000_000_000 * Exp(10, decimalsOut))
  {
    ExpAdds(10, decimalsOut, 9);
    assert Exp(10, 9) == 1_000_000_000;
  }

  /** The program returns precisely this output, and returns one whenever there is one. */
  lemma TokenOutExact(amount: u64, price: u64, decimalsIn: u8, decimalsOut: u8, out: u64)
    ensures TokenOutAmount(amount, price, decimalsIn, decimalsOut) == Ok(out)
       <==> IsOutput(amount, price, decimalsIn, decimalsOut, out)
  {
    NumeratorInBillions(amount, decimalsOut);
    if price > 0 {
      DenominatorPositive(price, decimalsIn);
      QuotientExact(amount * (1_000_000_000 * Exp(10, decimalsOut)), price * Exp(10, decimalsIn), out);
    }
  }

  lemma QuotientExact(a: int, d: int, q: int)
    requires d > 0
    ensures a / d == q <==> q * d <= a < (q + 1) * d
  {
    DivAtLeast(a, d, q);
    DivAtLeast(a, d, q + 1);
  }

  /** Why an output is refused, in the order of the checks. */
  lemma TokenOutRefused(amount: u64, price: u64, decimalsIn: u8, decimalsOut: u8)
    ensures var r := TokenOutAmount(amount, price, decimalsIn, decimalsOut);
      var worth, unit := amount * (1_000_000_000 * Exp(10, decimalsOut)), price * Exp(10, decimalsIn);
      && (r == Err(ZeroPriceNotAllowed) <==> price == 0)
      && (r == Err(DecimalsExceedMax) <==> price > 0 && (decimalsIn > 18 || decimalsOut > 18))
      && (price > 0 && decimalsIn <= 18 && decimalsOut <= 18 ==>
            && (r == Err(MathOverflow) <==> worth > U128_MAX || unit > U128_MAX)
            && (worth <= U128_MAX && unit <= U128_MAX ==>
                  && (r == Err(ResultOverflow) <==> worth >= 0x1_0000_0000_0000_0000 * unit)
                  && (r == Err(InvalidAmount) <==> worth < unit)))
  {
    NumeratorInBillions(amount, decimalsOut);
    if price > 0 {
      DenominatorPositive(price, decimalsIn);
      DivAtLeast(amount * (1_000_000_000 * Exp(10, decimalsOut)), price * Exp(10, decimalsIn), U64_MAX + 1);
      DivAtLeast(amount * (1_000_000_000 * Exp(10, decimalsOut)), price * Exp(10, decimalsIn), 1);
    }
  }

  /** At a price of 1.0 between tokens of equal decimals an amount buys itself, whenever the product fits. */
  lemma UnitPrice(amount: u64, decimals: u8)
    requires amount > 0 && decimals <= 18
    ensures TokenOutAmount(amount, 1_000_000_000, decimals, decimals)
         == if amount * (1_000_000_000 * Exp(10, decimals)) <= U128_MAX then Ok(amount) else Err(MathOverflow)
  {
    ExpPositive(10, decimals);
    var unit := 1_000_000_000 * Exp(10, decimals);
    MulMonotone(1, amount, unit, unit);
    NextMultiple(amount, unit);
    TokenOutExact(amount, 1_000_000_000, decimals, decimals, amount);
    TokenOutRefused(amount, 1_000_000_000, decimals, decimals);
  }

  lemma NextMultiple(q: int, d: int)
    ensures (q + 1) * d == q * d + d
  {
  }

  // ---------------------------------------------------------------- splitting a trade

  function Sum(xs: seq<nat>): nat
  {
    if xs == [] then 0 else xs[0] + Sum(xs[1..])
  }

  /** Net input of one trade. */
  function Net(amount: nat, bps: nat): (net: nat)
    requires bps <= MAX_BASIS_POINTS
    ensures net * 10_000 <= amount * (10_000 - bps) < net * 10_000 + 10_000
  {
    CeilFeeBounds(amount, bps);
    assert amount * (MAX_BASIS_POINTS - bps) == amount * MAX_BASIS_POINTS - amount * bps;
    MulMonotone(amount, amount, 0, MAX_BASIS_POINTS - bps);
    amount - CeilFee(amount, bps)
  }

  function Nets(amounts: seq<nat>, bps: nat): (nets: seq<nat>)
    requires bps <= MAX_BASIS_POINTS
    ensures |nets| == |amounts|
  {
    seq(|amounts|, i requires 0 <= i < |amounts| => Net(amounts[i], bps))
  }

  /** A trade: fee off the input, then conversion at the price. */
  function Trade(amount: u64, bps: u16, price: u64, decimalsIn: u8, decimalsOut: u8): Result<u64, ExchangeError>
  {
    match CalculateFees(amount, bps)
    case Err(e) => Err(e)
    case Ok(fees) => TokenOutAmount(fees.net, price, decimalsIn, decimalsOut)
  }

  lemma TradeOutput(amount: u64, bps: u16, price: u64, decimalsIn: u8, decimalsOut: u8)
    requires bps <= MAX_BASIS_POINTS && Trade(amount, bps, price, decimalsIn, decimalsOut).Ok?
    ensures price * Exp(10, decimalsIn) > 0
    ensures Trade(amount, bps, price, decimalsIn, decimalsOut).value
         == Net(amount, bps) * Exp(10, decimalsOut + PRICE_DECIMALS) / (price * Exp(10, decimalsIn))
  {
    FeesCharacterised(amount, bps);
    DenominatorPositive(price, decimalsIn);
  }

  /** Splitting an amount into `n` pieces loses between 0 and `n - 1` units of net input. */
  lemma {:induction false} SplitNet(amounts: seq<nat>, bps: nat)
    requires bps <= MAX_BASIS_POINTS && amounts != []
    ensures Sum(Nets(amounts, bps)) <= Net(Sum(amounts), bps) <= Sum(Nets(amounts, bps)) + (|amounts| - 1)
  {
    SplitNetScaled(amounts, bps);
    var total, pieces := Net(Sum(amounts), bps), Sum(Nets(amounts, bps));
    var x := Sum(amounts) * (MAX_BASIS_POINTS - bps);
    assert pieces * MAX_BASIS_POINTS <= x < total * MAX_BASIS_POINTS + MAX_BASIS_POINTS;
  }

  /** The same, before dividing by the basis-point scale. */
  lemma {:induction false} SplitNetScaled(amounts: seq<nat>, bps: nat)
    requires bps <= MAX_BASIS_POINTS && amounts != []
    ensures var x := Sum(amounts) * (MAX_BASIS_POINTS - bps);
      Sum(Nets(amounts, bps)) * MAX_BASIS_POINTS <= x
      <= Sum(Nets(amounts, bps)) * MAX_BASIS_POINTS + |amounts| * (MAX_BASIS_POINTS - 1)
  {
    var nets := Nets(amounts, bps);
    var rest := amounts[1..];
    assert nets[0] == Net(amounts[0], bps);
    assert nets[1..] == Nets(rest, bps);
    assert Sum(amounts) * (MAX_BASIS_POINTS - bps)
      == amounts[0] * (MAX_BASIS_POINTS - bps) + Sum(rest) * (MAX_BASIS_POINTS - bps);
    if rest == [] {
      assert Sum(rest) == 0 && Sum(nets[1..]) == 0;
    } else {
      SplitNetScaled(rest, bps);
    }
  }

  function Outs(nets: seq<nat>, numerator: nat, denominator: nat): (outs: seq<nat>)
    requires denominator > 0
    ensures |outs| == |nets|
  {
    seq(|nets|, i requires 0 <= i < |nets| => Out(nets[i], numerator, denominator))
  }

  function Out(net: nat, numerator: nat, denominator: nat): nat
    requires denominator > 0
  {
    MulMonotone(0, net, 0, numerator);
    DivAtLeast(net * numerator, denominator, 0);
    net * numerator / denominator
  }

  lemma FloorAdd(a: int, b: int, d: int)
    requires d > 0
    ensures a / d + b / d <= (a + b) / d
  {
    DivBounds(a, d);
    DivBounds(b, d);
    assert (a / d + b / d) * d == (a / d) * d + (b / d) * d;
    DivAtLeast(a + b, d, a / d + b / d);
  }

  lemma {:induction false} FloorSuperadditive(nets: seq<nat>, numerator: nat, denominator: nat)
    requires denominator > 0
    ensures Sum(Outs(nets, numerator, denominator)) <= Out(Sum(nets), numerator, denominator)
  {
    if nets == [] {
    } else {
      var outs, rest := Outs(nets, numerator, denominator), nets[1..];
      assert outs[0] == Out(nets[0], numerator, denominator) && outs[1..] == Outs(rest, numerator, denominator);
      FloorSuperadditive(rest, numerator, denominator);
      var a, b := nets[0] * numerator, Sum(rest) * numerator;
      assert Sum(nets) * numerator == a + b;
      FloorAdd(a, b, denominator);
    }
  }

  /** Each floored conversion loses less than one unit of output. */
  lemma {:induction false} FloorLoss(nets: seq<nat>, numerator: nat, denominator: nat)
    requires denominator > 0
    ensures Sum(nets) * numerator <= (Sum(Outs(nets, numerator, denominator)) + |nets|) * denominator
  {
    if nets == [] {
    } else {
      var outs, rest := Outs(nets, numerator, denominator), nets[1..];
      assert outs[0] == Out(nets[0], numerator, denominator) && outs[1..] == Outs(rest, numerator, denominator);
      FloorLoss(rest, numerator, denominator);
      FloorLossStep(nets[0], Sum(rest), Sum(outs[1..]) + |rest|, numerator, denominator);
    }
  }

  lemma FloorLossStep(net: nat, nets: nat, outs: nat, numerator: nat, d: nat)
    requires d > 0 && nets * numerator <= outs * d
    ensures (net + nets) * numerator <= (Out(net, numerator, d) + 1 + outs) * d
  {
    DivBounds(net * numerator, d);
    assert (net + nets) * numerator == net * numerator + nets * numerator;
    Distribute(Out(net, numerator, d), outs, d);
  }

  lemma Distribute(a: int, b: int, d: int)
    ensures (a + 1 + b) * d == a * d + d + b * d
  {
  }

  /** The separate outputs are the floored conversions of the separate net inputs. */
  lemma TradesAreOuts(amounts: seq<u64>, outs: seq<u64>, bps: u16, price: u64, decimalsIn: u8, decimalsOut: u8)
    requires bps <= MAX_BASIS_POINTS && |amounts| == |outs| && price > 0
    requires forall i :: 0 <= i < |amounts| ==> Trade(amounts[i], bps, price, decimalsIn, decimalsOut) == Ok(outs[i])
    ensures price * Exp(10, decimalsIn) > 0 && Exp(10, decimalsOut + PRICE_DECIMALS) > 0
    ensures outs == Outs(Nets(amounts, bps), Exp(10, decimalsOut + PRICE_DECIMALS), price * Exp(10, decimalsIn))
  {
    ExpPositive(10, decimalsOut + PRICE_DECIMALS);
    DenominatorPositive(price, decimalsIn);
    forall i | 0 <= i < |outs|
      ensures Outs(Nets(amounts, bps), Exp(10, decimalsOut + PRICE_DECIMALS), price * Exp(10, decimalsIn))[i] == outs[i]
    {
      TradeOutput(amounts[i], bps, price, decimalsIn, decimalsOut);
    }
  }

  /**
   * At one price and one fee, separate trades never return more than the combined trade, which in turn beats them by no
   * more than their roundings: `n - 1` units of net input and `n` units of output.
   */
  lemma SplittingNeverPays(amounts: seq<u64>, outs: seq<u64>, bps: u16, price: u64, decimalsIn: u8, decimalsOut: u8,
                           whole: u64)
    requires bps <= MAX_BASIS_POINTS && |amounts| == |outs| > 0 && Sum(amounts) <= U64_MAX
    ensures
      && (forall i :: 0 <= i < |amounts| ==> Trade(amounts[i], bps, price, decimalsIn, decimalsOut) == Ok(outs[i]))
      && Trade(Sum(amounts), bps, price, decimalsIn, decimalsOut) == Ok(whole)
      ==>
      && Sum(outs) <= whole
      && whole * (price * Exp(10, decimalsIn))
         <= (Sum(outs) + |outs|) * (price * Exp(10, decimalsIn)) + (|outs| - 1) * Exp(10, decimalsOut + PRICE_DECIMALS)
  {
    if
      && (forall i :: 0 <= i < |amounts| ==> Trade(amounts[i], bps, price, decimalsIn, decimalsOut) == Ok(outs[i]))
      && Trade(Sum(amounts), bps, price, decimalsIn, decimalsOut) == Ok(whole)
    {
      TradeOutput(Sum(amounts), bps, price, decimalsIn, decimalsOut);
      TradesAreOuts(amounts, outs, bps, price, decimalsIn, decimalsOut);
      SplitNet(amounts, bps);
      SplitOut(Nets(amounts, bps), Net(Sum(amounts), bps), Exp(10, decimalsOut + PRICE_DECIMALS),
               price * Exp(10, decimalsIn));
    }
  }

  lemma SplitOut(nets: seq<nat>, net: nat, numerator: nat, d: nat)
    requires d > 0 && |nets| > 0 && Sum(nets) <= net <= Sum(nets) + (|nets| - 1)
    ensures Sum(Outs(nets, numerator, d)) <= Out(net, numerator, d)
    ensures Out(net, numerator, d) * d <= (Sum(Outs(nets, numerator, d)) + |nets|) * d + (|nets| - 1) * numerator
  {
    FloorSuperadditive(nets, numerator, d);
    FloorLoss(nets, numerator, d);
    MulMonotone(Sum(nets), net, numerator, numerator);
    DivMonotone(Sum(nets) * numerator, net * numerator, d);
    DivBounds(net * numerator, d);
    MulMonotone(net, Sum(nets) + (|nets| - 1), numerator, numerator);
    assert (Sum(nets) + (|nets| - 1)) * numerator == Sum(nets) * numerator + (|nets| - 1) * numerator;
  }
}
