/** Fixed-point multiplication and exponentiation by squaring (programs/onreapp/src/utils/math_utils.rs). */
module FixedPoint {
  import opened Common

  /** `round(a * b / s)`, halves up, in unbounded arithmetic. */
  function Rounded(a: nat, b: nat, s: nat): nat
    requires s > 0
  {
    (a * b + s / 2) / s
  }

  /** `mul_div_round_u128`: each intermediate is checked against the 128-bit range. */
  function MulDivRound(a: u128, b: u128, denom: u128): (r: Option<u128>)
    ensures r.Some? <==> denom > 0 && a * b + denom / 2 <= U128_MAX
    ensures r.Some? ==> r.value == Rounded(a, b, denom)
  {
    if a * b > U128_MAX then None
    else if a * b + denom / 2 > U128_MAX then None
    else if denom == 0 then None
    else
      DivAtLeast(a * b + denom / 2, denom, 0);
      QuotientNoLarger(a * b + denom / 2, denom);
      Some((a * b + denom / 2) / denom)
  }

  /** `r` is the nearest integer to `a * b / s`, the upper one when two are equally near. */
  ghost predicate Nearest(a: nat, b: nat, s: nat, r: nat)
  {
    2 * (r * s) - s <= 2 * (a * b) < 2 * (r * s) + s
  }

  lemma RoundedIsNearest(a: nat, b: nat, s: nat, r: nat)
    requires s > 0
    ensures r == Rounded(a, b, s) <==> Nearest(a, b, s, r)
  {
    DivAtLeast(a * b + s / 2, s, r);
    DivAtLeast(a * b + s / 2, s, r + 1);
    MulStep(r, r + 1, s);
    assert (r + 1) * s == r * s + s;
  }

  lemma QuotientNoLarger(a: nat, d: nat)
    requires d > 0
    ensures a / d <= a
  {
    DivBounds(a, d);
    DivAtLeast(a, d, 0);
    MulMonotone(a / d, a / d, 1, d);
  }

  /** What the squaring loop returns from a given state when no product overflows. */
  function Power(acc: nat, base: nat, exp: nat, s: nat): nat
    requires s > 0
    decreases exp
  {
    if exp == 0 then acc
    else
      Power(if exp % 2 == 1 then Rounded(acc, base, s) else acc,
            if exp / 2 > 0 then Rounded(base, base, s) else base,
            exp / 2, s)
  }

  /** The same loop with the 128-bit checks. */
  function PowerChecked(acc: u128, base: u128, exp: nat, s: u128): Option<u128>
    decreases exp
  {
    if exp == 0 then Some(acc)
    else
      var acc' := if exp % 2 == 1 then MulDivRound(acc, base, s) else Some(acc);
      if acc'.None? then None
      else
        var base' := if exp / 2 > 0 then MulDivRound(base, base, s) else Some(base);
        if base'.None? then None
        else PowerChecked(acc'.value, base'.value, exp / 2, s)
  }

  /** `pow_fixed`. */
  method PowFixed(base0: u128, exp0: u64, scale: u128) returns (r: Option<u128>)
    ensures r == PowerChecked(scale, base0, exp0, scale)
  {
    var acc: u128, base: u128, exp: u64 := scale, base0, exp0;
    while exp > 0
      invariant PowerChecked(acc, base, exp, scale) == PowerChecked(scale, base0, exp0, scale)
    {
      if exp % 2 == 1 {
        var product := MulDivRound(acc, base, scale);
        if product.None? {
          return None;
        }
        acc := product.value;
      }
      if exp / 2 > 0 {
        var square := MulDivRound(base, base, scale);
        if square.None? {
          return None;
        }
        base := square.value;
      }
      exp := exp / 2;
    }
    return Some(acc);
  }

  // ---------------------------------------------------------------- one rounding

  lemma RoundedError(a: nat, b: nat, s: nat)
    requires s > 0
    ensures 2 * (a * b) - s <= 2 * (Rounded(a, b, s) * s) <= 2 * (a * b) + s
  {
    DivBounds(a * b + s / 2, s);
  }

  lemma RoundedMonotone(a: nat, b: nat, a': nat, b': nat, s: nat)
    requires s > 0 && a <= a' && b <= b'
    ensures Rounded(a, b, s) <= Rounded(a', b', s)
  {
    MulMonotone(a, a', b, b');
    DivMonotone(a * b + s / 2, a' * b' + s / 2, s);
  }

  /** One is neutral: multiplying by `s` is exact. */
  lemma RoundedUnit(a: nat, s: nat)
    requires s > 0
    ensures Rounded(s, a, s) == a && Rounded(a, s, s) == a
  {
    assert s * a == a * s;
    DivUnique(a * s + s / 2, s, a);
  }

  /** Multiplying by a factor of at least one never shrinks. */
  lemma RoundedGrows(a: nat, b: nat, s: nat)
    requires s > 0 && b >= s
    ensures Rounded(a, b, s) >= a && Rounded(b, a, s) >= a
  {
    RoundedUnit(a, s);
    RoundedMonotone(a, s, a, b, s);
    RoundedMonotone(s, a, b, a, s);
  }

  // ---------------------------------------------------------------- order

  lemma {:induction false} PowerMonotone(acc: nat, base: nat, acc': nat, base': nat, exp: nat, s: nat)
    requires s > 0 && acc <= acc' && base <= base'
    ensures Power(acc, base, exp, s) <= Power(acc', base', exp, s)
    decreases exp
  {
    if exp == 0 {
    } else {
      RoundedMonotone(acc, base, acc', base', s);
      RoundedMonotone(base, base, base', base', s);
      PowerMonotone(if exp % 2 == 1 then Rounded(acc, base, s) else acc,
                    if exp / 2 > 0 then Rounded(base, base, s) else base,
                    if exp % 2 == 1 then Rounded(acc', base', s) else acc',
                    if exp / 2 > 0 then Rounded(base', base', s) else base',
                    exp / 2, s);
    }
  }

  /** The accumulator only grows when every factor is at least one. */
  lemma {:induction false} PowerAtLeastAcc(acc: nat, base: nat, exp: nat, s: nat)
    requires 0 < s <= base
    ensures Power(acc, base, exp, s) >= acc
    decreases exp
  {
    if exp == 0 {
    } else {
      RoundedGrows(acc, base, s);
      RoundedGrows(base, base, s);
      PowerAtLeastAcc(if exp % 2 == 1 then Rounded(acc, base, s) else acc,
                      if exp / 2 > 0 then Rounded(base, base, s) else base, exp / 2, s);
    }
  }

  /** A carry in the exponent trades a product of low squares for the next square, which is no smaller. */
  lemma {:induction false} PowerCarry(low: nat, base: nat, exp: nat, s: nat)
    requires 0 < s <= base && low <= base
    ensures Power(low, base, exp, s) <= Power(s, base, exp + 1, s)
    decreases exp
  {
    RoundedUnit(base, s);
    if exp == 0 {
      assert Power(s, base, 1, s) == Power(Rounded(s, base, s), base, 0, s);
    } else {
      var square := Rounded(base, base, s);
      RoundedGrows(base, base, s);
      if exp % 2 == 0 {
        assert (exp + 1) / 2 == exp / 2;
        PowerMonotone(low, square, base, square, exp / 2, s);
      } else {
        assert (exp + 1) / 2 == exp / 2 + 1;
        RoundedMonotone(low, base, base, base, s);
        assert Power(s, base, exp + 1, s) == Power(s, square, exp / 2 + 1, s);
        if exp / 2 == 0 {
          assert Power(low, base, 1, s) == Rounded(low, base, s);
          PowerCarry(Rounded(low, base, s), square, 0, s);
        } else {
          PowerCarry(Rounded(low, base, s), square, exp / 2, s);
        }
      }
    }
  }

  /** Despite the rounding, one more factor never lowers the computed power. */
  lemma {:induction false} PowerMonotoneInExponent(base: nat, e: nat, e': nat, s: nat)
    requires 0 < s <= base && e <= e'
    ensures Power(s, base, e, s) <= Power(s, base, e', s)
    decreases e' - e
  {
    if e == e' {
    } else {
      PowerCarry(s, base, e, s);
      PowerMonotoneInExponent(base, e + 1, e', s);
    }
  }

  // ---------------------------------------------------------------- compounding is at least linear

  /** A rounded product of factors `1 + x/s` and `1 + y/s` keeps both increments and the whole part of their product. */
  lemma RoundedProduct(x: nat, y: nat, s: nat)
    requires s > 0
    ensures 0 <= x * y / s && Rounded(s + x, s + y, s) >= s + x + y + x * y / s
  {
    MulMonotone(0, x, 0, y);
    DivAtLeast(x * y, s, 0);
    DivBounds(x * y, s);
    ExpandProduct(x, y, s, x * y / s);
    DivAtLeast((s + x) * (s + y) + s / 2, s, s + x + y + x * y / s);
  }

  lemma ExpandProduct(x: int, y: int, s: int, q: int)
    ensures (s + x) * (s + y) - x * y == (s + x + y + q) * s - q * s
  {
  }

  /** No rounding makes the computed power fall below simple growth: Bernoulli's inequality for the loop. */
  lemma {:induction false} PowerAtLeastLinear(a: nat, b: nat, exp: nat, s: nat)
    requires s > 0
    ensures 0 <= b * exp && Power(s + a, s + b, exp, s) >= s + a + b * exp
    decreases exp
  {
    MulMonotone(0, b, 0, exp);
    if exp == 0 {
    } else {
      var a' := if exp % 2 == 1 then a + b else a;
      RoundedProduct(a, b, s);
      RoundedProduct(b, b, s);
      if exp / 2 > 0 {
        PowerAtLeastLinear(a', b + b, exp / 2, s);
        PowerMonotone(s + a', s + (b + b), if exp % 2 == 1 then Rounded(s + a, s + b, s) else s + a,
                      Rounded(s + b, s + b, s), exp / 2, s);
        HalvedExponent(a, b, exp);
      }
    }
  }

  /** What a second factor adds: every pair of factors compounds by the whole part of `b^2 / s`. */
  lemma PowerAtLeastQuadratic(b: nat, exp: nat, s: nat)
    requires s > 0
    ensures 0 <= b * b / s && 0 <= (exp / 2) * (b * b / s) && 0 <= b * exp
    ensures Power(s, s + b, exp, s) >= s + b * exp + (exp / 2) * (b * b / s)
  {
    RoundedProduct(b, b, s);
    MulMonotone(0, exp / 2, 0, b * b / s);
    PowerAtLeastLinear(0, b, exp, s);
    if exp < 2 {
      assert exp / 2 == 0;
    } else {
      PowerOfPairs(b, b * b / s, exp, s);
    }
  }

  lemma PowerOfPairs(b: nat, q: nat, exp: nat, s: nat)
    requires s > 0 && exp >= 2 && Rounded(s + b, s + b, s) >= s + (b + b + q)
    ensures Power(s, s + b, exp, s) >= s + b * exp + (exp / 2) * q
  {
    var a' := if exp % 2 == 1 then b else 0;
    RoundedUnit(s + b, s);
    PowerAtLeastLinear(a', b + b + q, exp / 2, s);
    PowerMonotone(s + a', s + (b + b + q), s + a', Rounded(s + b, s + b, s), exp / 2, s);
    HalvedSum(b, q, exp);
  }

  lemma HalvedSum(b: int, q: int, exp: nat)
    ensures (if exp % 2 == 1 then b else 0) + (b + b + q) * (exp / 2) == b * exp + (exp / 2) * q
  {
    HalvedExponent(0, b, exp);
    assert (b + b + q) * (exp / 2) == (b + b) * (exp / 2) + (exp / 2) * q;
  }

  // ---------------------------------------------------------------- compounding is at most geometric

  /** `x` is at most `s / (1 - u/s)`: in units of `s`, at most the geometric series of `u/s`. */
  predicate AtMostGeometric(x: int, u: int, s: int)
  {
    x * (s - u) <= s * s
  }

  /** A rounded product adds up the exponents of the series, and one for the rounding. */
  lemma RoundedGeometric(a: nat, u: nat, b: nat, v: nat, s: nat)
    requires s > 0 && a >= s && b >= s && AtMostGeometric(a, u, s) && AtMostGeometric(b, v, s)
    ensures AtMostGeometric(Rounded(a, b, s), u + v + 1, s)
  {
    var r, w := Rounded(a, b, s), s - u - v - 1;
    DivAtLeast(a * b + s / 2, s, 0);
    if w <= 0 {
      MulMonotone(0, r, 0, -w);
      MulMonotone(0, s, 0, s);
      NegatedFactor(r, w);
    } else {
      RoundedError(a, b, s);
      MulMonotone(s, a, s, b);
      BothBounds(a, s - u, b, s - v, s);
      MulMonotone(0, u, 0, v);
      GeometricStep(a * b, w, s, u, v);
      GeometricRound(a * b, r, w, s);
    }
  }

  lemma NegatedFactor(r: int, w: int)
    ensures r * -w == -(r * w)
  {
  }

  lemma BothBounds(a: nat, x: nat, b: nat, y: nat, s: nat)
    requires a * x <= s * s && b * y <= s * s
    ensures (a * b) * (x * y) <= (s * s) * (s * s)
  {
    MulMonotone(0, a, 0, x);
    MulMonotone(0, b, 0, y);
    MulMonotone(a * x, s * s, b * y, s * s);
    Interchange(a, x, b, y);
  }

  /** From the product of both bounds to one bound, one factor `s` less. */
  lemma GeometricStep(ab: nat, w: nat, s: nat, u: nat, v: nat)
    requires s > 0 && w == s - u - v - 1 && 0 <= u * v && ab * ((s - u) * (s - v)) <= (s * s) * (s * s)
    ensures ab * (w + 1) <= s * (s * s)
  {
    Difference(s, u, v);
    MulMonotoneLeft((w + 1) * s, (s - u) * (s - v), ab);
    Rearrange4(ab, w + 1, s);
    Commute(ab, (s - u) * (s - v));
    Commute(ab, (w + 1) * s);
    Regroup(ab, w + 1, s);
    Regroup(s, s * s, s);
    assert s * ((s * s) * s) == (s * s) * (s * s);
    MulCancel(ab * (w + 1), s * (s * s), s);
  }

  lemma Difference(s: int, u: int, v: int)
    ensures (s - u) * (s - v) == (s - u - v) * s + u * v
  {
  }

  lemma Regroup(a: int, b: int, c: int)
    ensures a * (b * c) == (a * b) * c
  {
  }

  lemma GeometricRound(ab: nat, r: nat, w: nat, s: nat)
    requires s > 0 && w < s && s * s <= ab && 2 * (r * s) <= 2 * ab + s && ab * (w + 1) <= s * (s * s)
    ensures r * w <= s * s
  {
    MulMonotoneLeft(2 * (r * s), 2 * ab + s, w);
    MulMonotoneLeft(w, s, s);
    ScaledRound(ab, r, w, s);
    MulCancel(r * w, s * s, s);
  }

  lemma ScaledRound(ab: int, r: int, w: int, s: int)
    ensures (2 * (r * s)) * w == 2 * ((r * w) * s) && (2 * ab + s) * w == 2 * (ab * w) + w * s
    ensures ab * (w + 1) == ab * w + ab && (s * s) * s == s * (s * s)
  {
    assert (r * s) * w == (r * w) * s;
  }

  /** The computed power is at most the geometric series of the summed increments, each with one unit of rounding. */
  lemma {:induction false} PowerAtMostGeometric(acc: nat, u: nat, base: nat, v: nat, exp: nat, s: nat)
    requires 0 < s <= base && s <= acc && AtMostGeometric(acc, u, s) && AtMostGeometric(base, v, s)
    ensures 0 <= exp * (v + 1) && AtMostGeometric(Power(acc, base, exp, s), u + exp * (v + 1), s)
    decreases exp
  {
    MulMonotone(0, exp, 0, v + 1);
    if exp == 0 {
    } else {
      var acc' := if exp % 2 == 1 then Rounded(acc, base, s) else acc;
      var u' := if exp % 2 == 1 then u + (v + 1) else u;
      RoundedGrows(acc, base, s);
      RoundedGrows(base, base, s);
      RoundedGeometric(acc, u, base, v, s);
      RoundedGeometric(base, v, base, v, s);
      HalvedExponent(u, v + 1, exp);
      Commute(v + 1, exp);
      if exp / 2 > 0 {
        PowerAtMostGeometric(acc', u', Rounded(base, base, s), v + v + 1, exp / 2, s);
        Commute((v + 1) + (v + 1), exp / 2);
      } else {
        assert exp == 1 && Power(acc, base, 1, s) == acc';
      }
    }
  }

  lemma Commute(a: int, b: int)
    ensures a * b == b * a
  {
  }

  // ---------------------------------------------------------------- error bound

  /** `x` is `base^m` in fixed point, off by at most `m - 1` relative errors of half a unit in `s`. */
  ghost predicate Approximates(x: nat, base: nat, m: nat, s: nat)
    requires s > 0 && m > 0
  {
    Exp(base, m) * Exp(2 * s - 1, m - 1) <= x * Exp(2 * s * s, m - 1) <= Exp(base, m) * Exp(2 * s + 1, m - 1)
  }

  lemma RoundedRelativeError(a: nat, b: nat, s: nat)
    requires s > 0 && a >= s && b >= s
    ensures (2 * s - 1) * (a * b) <= (2 * s * s) * Rounded(a, b, s) <= (2 * s + 1) * (a * b)
  {
    RoundedError(a, b, s);
    MulMonotone(s, a, s, b);
    RelativeError(a * b, Rounded(a, b, s), s);
  }

  lemma RelativeError(ab: int, r: int, s: nat)
    requires 2 * ab - s <= 2 * (r * s) <= 2 * ab + s && s * s <= ab
    ensures (2 * s - 1) * ab <= (2 * s * s) * r <= (2 * s + 1) * ab
  {
    MulMonotoneLeft(2 * ab - s, 2 * (r * s), s);
    MulMonotoneLeft(2 * (r * s), 2 * ab + s, s);
    ScaleOut(r, s);
    Expand(ab, s);
  }

  lemma ScaleOut(r: int, s: int)
    ensures (2 * (r * s)) * s == (2 * s * s) * r
  {
  }

  lemma Expand(ab: int, s: int)
    ensures (2 * ab - s) * s == 2 * (ab * s) - s * s && (2 * ab + s) * s == 2 * (ab * s) + s * s
    ensures (2 * s - 1) * ab == 2 * (ab * s) - ab && (2 * s + 1) * ab == 2 * (ab * s) + ab
  {
  }

  lemma ApproximatesProduct(x: nat, m: nat, y: nat, n: nat, base: nat, s: nat)
    requires s > 0 && m > 0 && n > 0 && x >= s && y >= s
    requires Approximates(x, base, m, s) && Approximates(y, base, n, s)
    ensures Approximates(Rounded(x, y, s), base, m + n, s)
  {
    var r := Rounded(x, y, s);
    var lo, mid, hi := 2 * s - 1, 2 * s * s, 2 * s + 1;
    var bm, bn := Exp(base, m), Exp(base, n);
    var lm, ln, dm, dn, hm, hn := Exp(lo, m - 1), Exp(lo, n - 1), Exp(mid, m - 1), Exp(mid, n - 1), Exp(hi, m - 1),
      Exp(hi, n - 1);
    ExpAdds(base, m, n);
    ExpAdds(lo, m - 1, n - 1);
    ExpAdds(mid, m - 1, n - 1);
    ExpAdds(hi, m - 1, n - 1);
    assert m + n - 1 == (m - 1) + (n - 1) + 1;
    assert Exp(lo, m + n - 1) == lo * (lm * ln);
    assert Exp(mid, m + n - 1) == mid * (dm * dn);
    assert Exp(hi, m + n - 1) == hi * (hm * hn);
    ExpNonNegative(base, m);
    ExpNonNegative(base, n);
    ExpPositive(lo, m - 1);
    ExpPositive(lo, n - 1);
    MulPositive(s);
    ExpPositive(mid, m - 1);
    ExpPositive(mid, n - 1);
    RoundedRelativeError(x, y, s);
    ProductBelow(bm * lm, x * dm, bn * ln, y * dn, lo, x * y, mid * r, bm, lm, bn, ln, x, dm, y, dn);
    ProductAbove(bm * hm, x * dm, bn * hn, y * dn, hi, x * y, mid * r, bm, hm, bn, hn, x, dm, y, dn);
    assert (mid * r) * (dm * dn) == r * (mid * (dm * dn)) by { Rearrange3(mid, r, dm * dn); }
  }

  lemma MulPositive(s: nat)
    requires s > 0
    ensures 2 * s * s >= 1
  {
    MulMonotone(1, 2 * s, 1, s);
  }

  lemma Rearrange3(a: int, b: int, c: int)
    ensures (a * b) * c == b * (a * c)
  {
  }

  lemma Rearrange4(a: int, b: int, c: int)
    ensures (a * b) * c == a * (c * b)
  {
  }

  lemma Rearrange5(a: int, b: int, c: int)
    ensures (a * b) * c == (c * a) * b
  {
  }

  lemma Interchange(a: int, b: int, c: int, d: int)
    ensures (a * b) * (c * d) == (a * c) * (b * d)
  {
    assert (a * b) * (c * d) == a * (b * (c * d));
    assert b * (c * d) == c * (b * d);
    assert a * (c * (b * d)) == (a * c) * (b * d);
  }

  lemma {:induction false} ExpNonNegative(b: nat, n: nat)
    ensures Exp(b, n) >= 0
  {
    if n > 0 {
      ExpNonNegative(b, n - 1);
      MulMonotone(0, b, 0, Exp(b, n - 1));
    }
  }

  /**
   * Multiplies two lower bounds `bm * lm <= x * dm` and `bn * ln <= y * dn`, and one lower relative error `lo * xy <=
   * mr`.
   */
  lemma ProductBelow(p: int, q: int, p': int, q': int, lo: int, xy: int, mr: int,
                     bm: int, lm: int, bn: int, ln: int, x: int, dm: int, y: int, dn: int)
    requires p == bm * lm && q == x * dm && p' == bn * ln && q' == y * dn && xy == x * y
    requires 0 <= p <= q && 0 <= p' <= q' && lo >= 0 && dm >= 0 && dn >= 0
    requires lo * xy <= mr
    ensures (bm * bn) * (lo * (lm * ln)) <= mr * (dm * dn)
  {
    MulMonotone(p, q, p', q');
    Interchange(bm, lm, bn, ln);
    Interchange(x, dm, y, dn);
    MulMonotone(0, dm, 0, dn);
    MulMonotoneLeft((bm * bn) * (lm * ln), xy * (dm * dn), lo);
    Rearrange4(bm * bn, lm * ln, lo);
    Rearrange5(xy, dm * dn, lo);
    MulMonotoneLeft(lo * xy, mr, dm * dn);
  }

  /**
   * Multiplies two upper bounds `x * dm <= bm * hm` and `y * dn <= bn * hn`, and one upper relative error `mr <= hi *
   * xy`.
   */
  lemma ProductAbove(p: int, q: int, p': int, q': int, hi: int, xy: int, mr: int,
                     bm: int, hm: int, bn: int, hn: int, x: int, dm: int, y: int, dn: int)
    requires p == bm * hm && q == x * dm && p' == bn * hn && q' == y * dn && xy == x * y
    requires 0 <= q <= p && 0 <= q' <= p' && hi >= 0 && dm >= 0 && dn >= 0
    requires mr <= hi * xy
    ensures mr * (dm * dn) <= (bm * bn) * (hi * (hm * hn))
  {
    MulMonotone(q, p, q', p');
    Interchange(bm, hm, bn, hn);
    Interchange(x, dm, y, dn);
    MulMonotone(0, dm, 0, dn);
    MulMonotoneLeft(xy * (dm * dn), (bm * bn) * (hm * hn), hi);
    Rearrange4(bm * bn, hm * hn, hi);
    Rearrange5(xy, dm * dn, hi);
    MulMonotoneLeft(mr, hi * xy, dm * dn);
  }

  /** Loop form of the error bound: the state stands for `b0^m` (or one, when `m == 0`) and `b0^k`. */
  lemma {:induction false} PowerApproximates(acc: nat, m: nat, base: nat, k: nat, exp: nat, b0: nat, s: nat)
    requires 0 < s <= base && k > 0 && s <= acc
    requires if m == 0 then acc == s else Approximates(acc, b0, m, s)
    requires Approximates(base, b0, k, s)
    requires m + exp > 0
    ensures 0 <= k * exp && m + k * exp > 0
    ensures Approximates(Power(acc, base, exp, s), b0, m + k * exp, s)
    decreases exp
  {
    MulMonotone(0, k, 0, exp);
    if exp == 0 {
    } else {
      MulMonotone(1, k, 1, exp);
      var acc' := if exp % 2 == 1 then Rounded(acc, base, s) else acc;
      var m' := if exp % 2 == 1 then m + k else m;
      RoundedGrows(acc, base, s);
      RoundedGrows(base, base, s);
      if exp % 2 == 1 {
        if m == 0 {
          RoundedUnit(base, s);
        } else {
          ApproximatesProduct(acc, m, base, k, b0, s);
        }
      }
      if exp / 2 > 0 {
        ApproximatesProduct(base, k, base, k, b0, s);
        PowerApproximates(acc', m', Rounded(base, base, s), k + k, exp / 2, b0, s);
        HalvedExponent(m, k, exp);
      } else {
        assert exp == 1;
        assert Power(acc, base, 1, s) == acc';
        assert k * exp == k;
      }
    }
  }

  /** Moving the lowest bit of the exponent to `m` and squaring the base keeps the power computed. */
  lemma HalvedExponent(m: int, k: int, exp: nat)
    ensures (if exp % 2 == 1 then m + k else m) + (k + k) * (exp / 2) == m + k * exp
  {
    SplitExponent(k, exp / 2, exp % 2);
    assert exp == 2 * (exp / 2) + exp % 2;
  }

  lemma SplitExponent(k: int, h: int, bit: int)
    ensures k * (2 * h + bit) == (k + k) * h + k * bit
  {
  }

  /** The computed power is `base^exp / scale^(exp-1)` within `exp - 1` relative errors of `1 / (2 * scale)`. */
  lemma PowerErrorBound(base: nat, exp: nat, s: nat)
    requires 0 < s <= base && exp > 0
    ensures Approximates(Power(s, base, exp, s), base, exp, s)
    ensures exp == 1 ==> Power(s, base, exp, s) == base
  {
    assert Exp(base, 1) == base * Exp(base, 0);
    assert Approximates(base, base, 1, s);
    PowerApproximates(s, 0, base, 1, exp, base, s);
    assert 0 + 1 * exp == exp;
    if exp == 1 {
      RoundedUnit(base, s);
      assert Power(s, base, 1, s) == Power(Rounded(s, base, s), base, 0, s);
    }
  }

  // ---------------------------------------------------------------- consecutive powers

  /** `n` upper and `n` lower relative errors drift apart by at most `2n` parts in `2s - 1`. */
  lemma {:induction false} ErrorSpread(lo: nat, n: nat)
    requires 2 * n <= lo
    ensures Exp(lo + 2, n) * (lo - 2 * n) <= Exp(lo, n) * lo
  {
    if n == 0 {
    } else {
      ErrorSpread(lo, n - 1);
      ExpNonNegative(lo + 2, n - 1);
      SpreadFactor(lo, n);
      SpreadChain(lo + 2, Exp(lo + 2, n - 1), lo - 2 * n, lo, lo - 2 * (n - 1), Exp(lo, n - 1) * lo);
    }
  }

  lemma SpreadFactor(lo: nat, n: nat)
    ensures (lo + 2) * (lo - 2 * n) <= lo * (lo - 2 * (n - 1))
  {
    assert (lo + 2) * (lo - 2 * n) == lo * (lo - 2 * n) + 2 * (lo - 2 * n);
    assert lo * (lo - 2 * (n - 1)) == lo * (lo - 2 * n) + 2 * lo;
  }

  lemma SpreadChain(hi: nat, h: nat, z: nat, lo: nat, w: nat, prev: int)
    requires hi * z <= lo * w && h * w <= prev
    ensures (hi * h) * z <= lo * prev
  {
    Rearrange3(hi, h, z);
    MulMonotoneLeft(hi * z, lo * w, h);
    Rearrange3(lo, w, h);
    MulMonotoneLeft(h * w, prev, lo);
    Commute3(lo, w, h);
  }

  lemma Commute3(a: int, b: int, c: int)
    ensures (a * b) * c == (c * b) * a
  {
  }

  /** The computed powers of `n` and `n + 1` differ by one factor of `base`, up to `2n` parts in `2s - 1`. */
  lemma ConsecutivePowers(base: nat, n: nat, s: nat)
    requires 0 < s <= base && 2 * n <= 2 * s - 1
    ensures (Power(s, base, n, s) * base) * (2 * s - 1 - 2 * n) <= (Power(s, base, n + 1, s) * s) * (2 * s - 1)
  {
    PowerErrorBound(base, n + 1, s);
    if n == 0 {
      assert Power(s, base, 0, s) == s;
    } else {
      PowerErrorBound(base, n, s);
      ErrorSpread(2 * s - 1, n);
      MulPositive(s);
      ExpPositive(2 * s * s, n - 1);
      ExpPositive(2 * s - 1, n);
      ExpPositive(2 * s + 1, n - 1);
      ExpNonNegative(base, n);
      SquareBelow(s);
      SuccessorBelow(Power(s, base, n + 1, s), base, n, s);
      ChainPowers(Power(s, base, n, s), Power(s, base, n + 1, s), base, Exp(base, n), Exp(2 * s * s, n - 1),
                  Exp(2 * s + 1, n - 1), Exp(2 * s - 1, n), s, 2 * s - 1 - 2 * n, 2 * s * s, 2 * s + 1, 2 * s - 1);
    }
  }

  lemma SquareBelow(s: nat)
    ensures 2 * s * s <= s * (2 * s + 1)
  {
  }

  /** The lower bound for `n + 1`, with one factor split off each power. */
  lemma SuccessorBelow(x: nat, base: nat, n: nat, s: nat)
    requires s > 0 && n > 0 && Approximates(x, base, n + 1, s)
    ensures (base * Exp(base, n)) * Exp(2 * s - 1, n) <= x * ((2 * s * s) * Exp(2 * s * s, n - 1))
  {
  }

  /**
   * From `a / s <= x / d * u` and `f * x * l <= b * q * d` to `a * f / b <= s * lo / k`. Here `a` and `b` are the
   * computed powers, `x` the exact one, `f` the base, `u` and `l` the powers of the upper and lower relative errors,
   * `d` that of their denominator `q`, `h` and `lo` one such error, and `k` what `n` of them leave of `lo`.
   */
  lemma ChainPowers(a: nat, b: nat, f: nat, x: nat, d: nat, u: nat, l: nat, s: nat, k: nat, q: nat, h: nat, lo: nat)
    requires d > 0 && l > 0 && q <= s * h
    requires a * d <= x * u && (f * x) * l <= b * (q * d)
    requires (h * u) * k <= l * lo
    ensures (a * f) * k <= (b * s) * lo
  {
    MulMonotone(0, a, 0, f);
    MulMonotone(0, b, 0, s);
    MulMonotone(0, h, 0, u);
    MulMonotone(0, f, 0, l);
    CrossBounds(a, b, f, x, d, u, l, q);
    MulMonotoneLeft(q, s * h, b * u);
    Identity1(b, q, u, s, h);
    MulMonotoneLeft((a * f) * l, (b * s) * (h * u), k);
    MulMonotoneLeft((h * u) * k, l * lo, b * s);
    Identity2(a * f, b * s, h * u, k, l, lo);
    MulCancel((a * f) * k, (b * s) * lo, l);
  }

  lemma Identity1(b: int, q: int, u: int, s: int, h: int)
    ensures q * (b * u) == (b * q) * u && (s * h) * (b * u) == (b * s) * (h * u)
  {
  }

  lemma Identity2(af: int, bs: int, hu: int, k: int, l: int, lo: int)
    ensures (af * l) * k == (af * k) * l && (bs * hu) * k == (hu * k) * bs && (l * lo) * bs == (bs * lo) * l
  {
  }

  lemma CrossBounds(a: nat, b: nat, f: nat, x: nat, d: nat, u: nat, l: nat, q: nat)
    requires d > 0 && 0 <= f * l
    requires a * d <= x * u && (f * x) * l <= b * (q * d)
    ensures (a * f) * l <= (b * q) * u
  {
    MulMonotoneLeft(a * d, x * u, f * l);
    MulMonotoneLeft((f * x) * l, b * (q * d), u);
    Identity3(a, d, f, l, x, u, b, q);
    MulCancel((a * f) * l, (b * q) * u, d);
  }

  lemma Identity3(a: int, d: int, f: int, l: int, x: int, u: int, b: int, q: int)
    ensures (a * d) * (f * l) == ((a * f) * l) * d
    ensures (x * u) * (f * l) == ((f * x) * l) * u
    ensures (b * (q * d)) * u == ((b * q) * u) * d
  {
    Interchange(a, d, f, l);
    assert (d * l) == l * d;
    assert (a * f) * (d * l) == ((a * f) * l) * d;
    Interchange(x, u, f, l);
    assert (x * f) * (u * l) == ((f * x) * l) * u;
  }

  // ---------------------------------------------------------------- overflow

  /** A checked result is the unbounded one, and it fits one more multiplication by the scale. */
  lemma {:induction false} PowerCheckedExact(acc: u128, base: u128, exp: nat, s: u128)
    requires s > 0 && PowerChecked(acc, base, exp, s).Some?
    ensures PowerChecked(acc, base, exp, s).value == Power(acc, base, exp, s)
    ensures exp > 0 ==> Power(acc, base, exp, s) * s <= U128_MAX
    decreases exp
  {
    if exp == 0 {
    } else {
      var acc' := if exp % 2 == 1 then MulDivRound(acc, base, s) else Some(acc);
      var base' := if exp / 2 > 0 then MulDivRound(base, base, s) else Some(base);
      PowerCheckedExact(acc'.value, base'.value, exp / 2, s);
      if exp / 2 == 0 {
        assert exp == 1;
        DivBounds(acc * base + s / 2, s);
      }
    }
  }

  /** Overflow is never spurious: it is reported only when the true result is out of reach too. */
  lemma {:induction false} PowerOverflowGenuine(acc: u128, base: u128, exp: nat, s: u128)
    requires 0 < s <= base && s <= acc && PowerChecked(acc, base, exp, s).None?
    ensures (Power(acc, base, exp, s) + 1) * s > U128_MAX + 1
    decreases exp
  {
    if exp == 0 {
    } else {
      var odd, more := exp % 2 == 1, exp / 2 > 0;
      var acc' := if odd then Rounded(acc, base, s) else acc;
      var base' := if more then Rounded(base, base, s) else base;
      RoundedGrows(acc, base, s);
      RoundedGrows(base, base, s);
      PowerAtLeastAcc(acc', base', exp / 2, s);
      if odd && MulDivRound(acc, base, s).None? {
        OverflowingProduct(acc, base, Power(acc, base, exp, s), s);
      } else if more && MulDivRound(base, base, s).None? {
        PowerAtLeastBase(acc', base', exp / 2, s);
        OverflowingProduct(base, base, Power(acc, base, exp, s), s);
      } else {
        PowerOverflowGenuine(acc', base', exp / 2, s);
      }
    }
  }

  lemma OverflowingProduct(a: nat, b: nat, r: nat, s: nat)
    requires s > 0 && a * b + s / 2 > U128_MAX && r >= Rounded(a, b, s)
    ensures (r + 1) * s > U128_MAX + 1
  {
    DivBounds(a * b + s / 2, s);
    MulMonotone(Rounded(a, b, s) + 1, r + 1, s, s);
  }

  /** Every square that is computed ends up as a factor of the result. */
  lemma {:induction false} PowerAtLeastBase(acc: nat, base: nat, exp: nat, s: nat)
    requires 0 < s <= base && s <= acc && exp > 0
    ensures Power(acc, base, exp, s) >= base
    decreases exp
  {
    RoundedGrows(base, acc, s);
    RoundedGrows(acc, base, s);
    RoundedGrows(base, base, s);
    if exp == 1 {
      assert Power(acc, base, 1, s) == Power(Rounded(acc, base, s), base, 0, s);
    } else {
      PowerAtLeastBase(if exp % 2 == 1 then Rounded(acc, base, s) else acc, Rounded(base, base, s), exp / 2, s);
    }
  }
}
