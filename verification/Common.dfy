/** Machine integers, results and the few arithmetic facts every other module leans on. */
module Common {
  const U8_MAX := 0xFF
  const U16_MAX := 0xFFFF
  const U64_MAX := 0xFFFF_FFFF_FFFF_FFFF
  const U128_MAX := 0xFFFF_FFFF_FFFF_FFFF_FFFF_FFFF_FFFF_FFFF

  type u8 = x: int | 0 <= x <= U8_MAX
  type u16 = x: int | 0 <= x <= U16_MAX
  type u64 = x: int | 0 <= x <= U64_MAX
  type i64 = x: int | -0x8000_0000_0000_0000 <= x <= 0x7FFF_FFFF_FFFF_FFFF
  type u128 = x: int | 0 <= x <= U128_MAX

  datatype Option<+T> = None | Some(value: T)

  datatype Result<+T, +E> = Ok(value: T) | Err(error: E)

  /** Exact integer power. */
  function Exp(b: int, n: nat): int
  {
    if n == 0 then 1 else b * Exp(b, n - 1)
  }

  lemma {:induction false} ExpAdds(b: int, m: nat, n: nat)
    ensures Exp(b, m + n) == Exp(b, m) * Exp(b, n)
  {
    if m == 0 {
    } else {
      ExpAdds(b, m - 1, n);
      assert b * (Exp(b, m - 1) * Exp(b, n)) == b * Exp(b, m - 1) * Exp(b, n);
    }
  }

  /** The types have 1, 2, 8 and 16 bytes. */
  lemma MachineWidths()
    ensures U8_MAX + 1 == Exp(256, 1) && U16_MAX + 1 == Exp(256, 2)
    ensures U64_MAX + 1 == Exp(256, 8) && U128_MAX + 1 == Exp(256, 16)
  {
    assert Exp(256, 4) == 0x1_0000_0000;
    ExpAdds(256, 4, 4);
    ExpAdds(256, 8, 8);
  }

  lemma {:induction false} ExpPositive(b: int, n: nat)
    requires b >= 1
    ensures Exp(b, n) >= 1
  {
    if n == 0 {
    } else {
      ExpPositive(b, n - 1);
      MulMonotone(1, b, 1, Exp(b, n - 1));
    }
  }

  lemma MulMonotone(a: int, b: int, c: int, d: int)
    requires 0 <= a <= b && 0 <= c <= d
    ensures a * c <= b * d
  {
    assert a * c <= b * c;
    assert b * c <= b * d;
  }

  /** A whole step between factors is a whole `k` between products. */
  lemma MulStep(a: int, b: int, k: int)
    requires k >= 0 && a < b
    ensures a * k + k <= b * k
  {
    MulMonotoneLeft(a + 1, b, k);
  }

  lemma MulMonotoneLeft(a: int, b: int, k: int)
    requires k >= 0 && a <= b
    ensures a * k <= b * k
  {
  }

  /** Cancels a positive factor. */
  lemma MulCancel(a: int, b: int, k: int)
    requires k > 0 && a * k <= b * k
    ensures a <= b
  {
    if a > b {
      MulStep(b, a, k);
    }
  }

  /** The defining inequalities of floor division by a positive divisor. */
  lemma DivBounds(a: int, d: int)
    requires d > 0
    ensures (a / d) * d <= a < (a / d) * d + d
  {
  }

  /** A floor quotient is at least `q` exactly when the dividend reaches `q * d`. */
  lemma DivAtLeast(a: int, d: int, q: int)
    requires d > 0
    ensures q <= a / d <==> q * d <= a
  {
    DivBounds(a, d);
    if q <= a / d {
      MulMonotoneLeft(q, a / d, d);
    } else {
      MulStep(a / d, q, d);
    }
  }

  /** `q` is the quotient when it satisfies the defining inequalities. */
  lemma DivUnique(a: int, d: int, q: int)
    requires d > 0 && q * d <= a < q * d + d
    ensures a / d == q
  {
    DivAtLeast(a, d, q);
    DivAtLeast(a, d, q + 1);
    assert (q + 1) * d == q * d + d;
  }

  lemma DivMonotone(a: int, b: int, d: int)
    requires d > 0 && a <= b
    ensures a / d <= b / d
  {
    DivBounds(a, d);
    DivAtLeast(b, d, a / d);
  }
}
