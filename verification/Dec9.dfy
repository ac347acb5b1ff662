/** Decimal text of nine-decimal fixed-point numbers (`u64_to_dec9`, programs/onreapp/src/utils/token_utils.rs). */
module Dec9 {
  import opened Common

  const SCALE := 1_000_000_000

  // ---------------------------------------------------------------- digits

  predicate IsDigit(c: char)
  {
    '0' <= c <= '9'
  }

  predicate AllDigits(s: string)
  {
    forall i :: 0 <= i < |s| ==> IsDigit(s[i])
  }

  function DigitChar(d: int): (c: char)
    requires 0 <= d < 10
    ensures IsDigit(c) && DigitValue(c) == d
  {
    '0' + d as char
  }

  function DigitValue(c: char): (d: int)
    requires IsDigit(c)
    ensures 0 <= d < 10 && c == '0' + d as char
  {
    (c - '0') as int
  }

  /** The number a digit string denotes. */
  function DigitsValue(s: string): nat
    requires AllDigits(s)
  {
    if s == [] then 0 else 10 * DigitsValue(s[..|s| - 1]) + DigitValue(s[|s| - 1])
  }

  lemma ValueOfAppend(s: string, c: char)
    requires AllDigits(s) && IsDigit(c)
    ensures AllDigits(s + [c]) && DigitsValue(s + [c]) == 10 * DigitsValue(s) + DigitValue(c)
  {
    assert (s + [c])[..|s|] == s;
  }

  /** `to_string` of an unsigned integer. */
  function ToDigits(n: nat): (s: string)
    ensures s != [] && AllDigits(s)
  {
    if n < 10 then [DigitChar(n)] else ToDigits(n / 10) + [DigitChar(n % 10)]
  }

  function Zeros(k: nat): (s: string)
    ensures |s| == k && AllDigits(s)
  {
    if k == 0 then [] else Zeros(k - 1) + ['0']
  }

  /** Zero padding on the left to a minimum width, as `{:09}` does for width nine. */
  function PadLeft(s: string, width: nat): string
  {
    if |s| < width then Zeros(width - |s|) + s else s
  }

  /** All trailing zeros removed. */
  function DropZeros(s: string): (r: string)
    ensures |r| <= |s| && (AllDigits(s) ==> AllDigits(r))
    ensures r != [] ==> r[|r| - 1] != '0'
  {
    if s != [] && s[|s| - 1] == '0' then DropZeros(s[..|s| - 1]) else s
  }

  // ---------------------------------------------------------------- u64_to_dec9

  /** The text of a whole part and a fraction in units of the ninth decimal. */
  function Text(whole: nat, frac: nat): string
  {
    if frac == 0 then ToDigits(whole) else ToDigits(whole) + "." + DropZeros(PadLeft(ToDigits(frac), 9))
  }

  function Format(n: nat): string
  {
    Text(n / SCALE, n % SCALE)
  }

  /** `u64_to_dec9`, with its loop popping zeros. */
  method U64ToDec9(n: u64) returns (text: string)
    ensures text == Format(n)
  {
    var intPart, fracPart := n / SCALE, n % SCALE;
    if fracPart == 0 {
      return ToDigits(intPart);
    }
    var frac := PadLeft(ToDigits(fracPart), 9);
    while frac != [] && frac[|frac| - 1] == '0'
      invariant DropZeros(frac) == DropZeros(PadLeft(ToDigits(fracPart), 9))
      decreases |frac|
    {
      frac := frac[..|frac| - 1];
    }
    text := ToDigits(intPart) + "." + frac;
  }

  // ---------------------------------------------------------------- reading the text back

  /** Where the decimal point is, or the end of the text. */
  function DotAt(s: string): (i: nat)
    ensures i <= |s| && (forall k :: 0 <= k < i ==> s[k] != '.') && (i < |s| ==> s[i] == '.')
  {
    if s == [] || s[0] == '.' then 0 else 1 + DotAt(s[1..])
  }

  predicate WholePart(s: string)
  {
    s != [] && AllDigits(s)
  }

  predicate Fraction(s: string)
  {
    0 < |s| <= 9 && AllDigits(s)
  }

  /** A fraction of `|s|` decimals, in units of the ninth decimal. */
  function FractionValue(s: string): nat
    requires Fraction(s)
  {
    ExpPositive(10, 9 - |s|);
    MulMonotone(0, DigitsValue(s), 0, Exp(10, 9 - |s|));
    DigitsValue(s) * Exp(10, 9 - |s|)
  }

  /** Any decimal text with at most nine decimals, as whole part and fraction; none if malformed. */
  function Parse(s: string): Option<(nat, nat)>
  {
    var dot := DotAt(s);
    if !WholePart(s[..dot]) then None
    else if dot == |s| then Some((DigitsValue(s[..dot]), 0))
    else if !Fraction(s[dot + 1..]) then None
    else Some((DigitsValue(s[..dot]), FractionValue(s[dot + 1..])))
  }

  /** Such a text as a nine-decimal fixed-point number. */
  function Read(s: string): Option<nat>
  {
    match Parse(s)
    case None => None
    case Some((whole, frac)) => Some(whole * SCALE + frac)
  }

  /** No superfluous leading zero, no trailing zero in the fraction. */
  predicate Canonical(s: string)
  {
    var dot := DotAt(s);
    (dot > 1 ==> s[0] != '0') && (dot < |s| ==> s[|s| - 1] != '0')
  }

  // ---------------------------------------------------------------- whole part

  lemma {:induction false} ToDigitsValue(n: nat)
    ensures DigitsValue(ToDigits(n)) == n
    ensures |ToDigits(n)| > 1 ==> ToDigits(n)[0] != '0'
  {
    if n < 10 {
      assert ToDigits(n)[..0] == [];
    } else {
      ToDigitsValue(n / 10);
      ValueOfAppend(ToDigits(n / 10), DigitChar(n % 10));
      if |ToDigits(n / 10)| == 1 {
        assert ToDigits(n / 10)[..0] == [];
      }
    }
  }

  lemma {:induction false} LeadingDigit(s: string)
    requires s != [] && AllDigits(s) && s[0] != '0'
    ensures DigitsValue(s) > 0
  {
    if |s| == 1 {
    } else {
      LeadingDigit(s[..|s| - 1]);
    }
  }

  lemma {:induction false} ToDigitsOfValue(s: string)
    requires s != [] && AllDigits(s) && (|s| > 1 ==> s[0] != '0')
    ensures ToDigits(DigitsValue(s)) == s
  {
    var init, last := s[..|s| - 1], s[|s| - 1];
    assert s == init + [last];
    if |s| == 1 {
      assert DigitsValue(init) == 0;
    } else {
      LeadingDigit(init);
      ToDigitsOfValue(init);
      ToDigitsStep(DigitsValue(init), last);
    }
  }

  lemma ToDigitsStep(n: nat, c: char)
    requires n > 0 && IsDigit(c)
    ensures ToDigits(10 * n + DigitValue(c)) == ToDigits(n) + [c]
  {
    assert (10 * n + DigitValue(c)) / 10 == n && (10 * n + DigitValue(c)) % 10 == DigitValue(c);
  }

  // ---------------------------------------------------------------- fraction

  /** The digits of `n` to a fixed width. */
  function Fixed(n: nat, width: nat): (s: string)
    ensures |s| == width && AllDigits(s)
  {
    if width == 0 then [] else Fixed(n / 10, width - 1) + [DigitChar(n % 10)]
  }

  lemma {:induction false} FixedZero(width: nat)
    ensures Fixed(0, width) == Zeros(width)
  {
    if width == 0 {
    } else {
      FixedZero(width - 1);
    }
  }

  lemma {:induction false} PadIsFixed(n: nat, width: nat)
    requires width > 0 && n < Exp(10, width)
    ensures PadLeft(ToDigits(n), width) == Fixed(n, width)
  {
    if n < 10 {
      FixedZero(width - 1);
    } else {
      assert Exp(10, width) == 10 * Exp(10, width - 1);
      assert Exp(10, 0) == 1;
      PadIsFixed(n / 10, width - 1);
      var front, last := ToDigits(n / 10), DigitChar(n % 10);
      assert PadLeft(front + [last], width) == PadLeft(front, width - 1) + [last];
    }
  }

  lemma {:induction false} FixedValue(n: nat, width: nat)
    requires n < Exp(10, width)
    ensures DigitsValue(Fixed(n, width)) == n
  {
    if width == 0 {
    } else {
      FixedValue(n / 10, width - 1);
      ValueOfAppend(Fixed(n / 10, width - 1), DigitChar(n % 10));
    }
  }

  lemma {:induction false} FixedOfDigits(s: string)
    requires AllDigits(s)
    ensures DigitsValue(s) < Exp(10, |s|) && Fixed(DigitsValue(s), |s|) == s
  {
    if s == [] {
    } else {
      var init, last := s[..|s| - 1], s[|s| - 1];
      FixedOfDigits(init);
      FixedStep(DigitsValue(init), last, |init|);
      assert s == init + [last];
    }
  }

  lemma FixedStep(n: nat, c: char, width: nat)
    requires IsDigit(c)
    ensures Fixed(10 * n + DigitValue(c), width + 1) == Fixed(n, width) + [c]
  {
    assert (10 * n + DigitValue(c)) / 10 == n && (10 * n + DigitValue(c)) % 10 == DigitValue(c);
  }

  /** A digit string followed by `k` zeros is the fixed-width form of its value times `10^k`. */
  lemma {:induction false} FixedOfScaled(s: string, k: nat, scaled: nat)
    requires AllDigits(s) && scaled == DigitsValue(s) * Exp(10, k)
    ensures scaled < Exp(10, |s| + k) && Fixed(scaled, |s| + k) == s + Zeros(k)
  {
    if k == 0 {
      FixedOfDigits(s);
      assert s + [] == s;
    } else {
      ExpPositive(10, k - 1);
      TimesTen(DigitsValue(s), Exp(10, k - 1));
      MulMonotone(0, DigitsValue(s), 0, Exp(10, k - 1));
      var smaller := DigitsValue(s) * Exp(10, k - 1);
      FixedOfScaled(s, k - 1, smaller);
      FixedStep(smaller, '0', |s| + k - 1);
      OneMoreZero(s, k);
    }
  }

  lemma OneMoreZero(s: string, k: nat)
    requires k > 0
    ensures s + Zeros(k) == (s + Zeros(k - 1)) + ['0']
  {
  }

  lemma TimesTen(a: nat, b: int)
    ensures a * (10 * b) == 10 * (a * b)
  {
  }

  lemma {:induction false} DropZerosOfPadded(s: string, k: nat)
    requires s != [] && s[|s| - 1] != '0'
    ensures DropZeros(s + Zeros(k)) == s
  {
    if k == 0 {
      assert s + [] == s;
    } else {
      DropZerosOfPadded(s, k - 1);
      OneMoreZero(s, k);
      DropZeroStep(s + Zeros(k - 1));
    }
  }

  lemma DropZeroStep(s: string)
    ensures DropZeros(s + ['0']) == DropZeros(s)
  {
    assert (s + ['0'])[..|s|] == s;
  }

  /** Dropping trailing zeros divides by the power of ten they stand for. */
  lemma {:induction false} DropZerosValue(s: string)
    requires AllDigits(s)
    ensures DigitsValue(DropZeros(s)) * Exp(10, |s| - |DropZeros(s)|) == DigitsValue(s)
  {
    if s != [] && s[|s| - 1] == '0' {
      DropZerosValue(s[..|s| - 1]);
      TimesTen(DigitsValue(DropZeros(s)), Exp(10, |s| - 1 - |DropZeros(s)|));
    } else {
      assert Exp(10, 0) == 1;
    }
  }

  lemma NinePlaces()
    ensures Exp(10, 9) == SCALE
  {
    assert Exp(10, 3) == 1000;
    assert Exp(10, 6) == 1000_000 by { ExpAdds(10, 3, 3); }
    ExpAdds(10, 6, 3);
  }

  /** The nonzero fraction that is printed. */
  lemma PrintedFraction(frac: nat) returns (text: string)
    requires 0 < frac < SCALE
    ensures text == DropZeros(PadLeft(ToDigits(frac), 9))
    ensures Fraction(text) && text[|text| - 1] != '0' && FractionValue(text) == frac
  {
    NinePlaces();
    PadIsFixed(frac, 9);
    FixedValue(frac, 9);
    text := TrimmedFraction(Fixed(frac, 9), frac);
  }

  lemma TrimmedFraction(full: string, frac: nat) returns (text: string)
    requires AllDigits(full) && |full| == 9 && DigitsValue(full) == frac && frac > 0
    ensures text == DropZeros(full)
    ensures Fraction(text) && text[|text| - 1] != '0' && FractionValue(text) == frac
  {
    text := DropZeros(full);
    DropZerosValue(full);
  }

  // ---------------------------------------------------------------- round trips

  lemma {:induction false} DotAfter(whole: string, rest: string)
    requires AllDigits(whole) && (rest == [] || rest[0] == '.')
    ensures DotAt(whole + rest) == |whole|
  {
    if whole == [] {
      assert [] + rest == rest;
    } else {
      DotAfter(whole[1..], rest);
      assert (whole + rest)[1..] == whole[1..] + rest;
    }
  }

  /** Parsing the text of two parts gives the parts back, and the text is canonical. */
  lemma ParseInvertsText(whole: nat, frac: nat)
    requires frac < SCALE
    ensures Parse(Text(whole, frac)) == Some((whole, frac)) && Canonical(Text(whole, frac))
    ensures DotAt(Text(whole, frac)) == |Text(whole, frac)| <==> frac == 0
    ensures |Text(whole, frac)| <= DotAt(Text(whole, frac)) + 10
  {
    ToDigitsValue(whole);
    if frac == 0 {
      ParseWhole(ToDigits(whole));
    } else {
      var decimals := PrintedFraction(frac);
      ParseParts(ToDigits(whole), decimals);
    }
  }

  lemma ParseWhole(whole: string)
    requires WholePart(whole)
    ensures DotAt(whole) == |whole| && Parse(whole) == Some((DigitsValue(whole), 0))
  {
    assert whole + [] == whole && whole[..|whole|] == whole;
    DotAfter(whole, []);
  }

  lemma ParseParts(whole: string, frac: string)
    requires WholePart(whole) && Fraction(frac)
    ensures var text := whole + "." + frac;
      DotAt(text) == |whole| && text[0] == whole[0] && text[|text| - 1] == frac[|frac| - 1] &&
      Parse(text) == Some((DigitsValue(whole), FractionValue(frac)))
  {
    var text := whole + "." + frac;
    assert text == whole + ("." + frac);
    DotAfter(whole, "." + frac);
    assert text[..|whole|] == whole && text[|whole| + 1..] == frac;
  }

  /** A canonical text is the text of its parts. */
  lemma TextInvertsParse(s: string)
    requires Parse(s).Some? && Canonical(s)
    ensures Text(Parse(s).value.0, Parse(s).value.1) == s
  {
    var dot := DotAt(s);
    var whole := s[..dot];
    ToDigitsOfValue(whole);
    if dot == |s| {
      assert whole == s;
    } else {
      var frac := s[dot + 1..];
      CanonicalFraction(frac, FractionValue(frac));
      AroundDot(s, dot);
    }
  }

  lemma AroundDot(s: string, dot: nat)
    requires dot < |s| && s[dot] == '.'
    ensures s == s[..dot] + "." + s[dot + 1..]
  {
  }

  lemma CanonicalFraction(frac: string, f: nat)
    requires Fraction(frac) && frac[|frac| - 1] != '0' && f == FractionValue(frac)
    ensures f > 0 && DropZeros(PadLeft(ToDigits(f), 9)) == frac
  {
    var k := 9 - |frac|;
    NinePlaces();
    FixedOfScaled(frac, k, f);
    PadIsFixed(f, 9);
    DropZerosOfPadded(frac, k);
    FractionPositive(frac);
  }

  lemma FractionPositive(frac: string)
    requires Fraction(frac) && frac[|frac| - 1] != '0'
    ensures FractionValue(frac) > 0
  {
    assert DigitsValue(frac) > 0;
    ExpPositive(10, 9 - |frac|);
    MulMonotone(1, DigitsValue(frac), 1, Exp(10, 9 - |frac|));
  }

  lemma ParsedFractionSmall(s: string)
    requires Parse(s).Some?
    ensures Parse(s).value.1 < SCALE
  {
    var dot := DotAt(s);
    if dot < |s| {
      var frac := s[dot + 1..];
      NinePlaces();
      FixedOfScaled(frac, 9 - |frac|, FractionValue(frac));
    }
  }

  /**
   * Reading the printed text gives the number back, and the text is canonical: a whole part, then, exactly when the
   * number is not whole, a point and one to nine decimals of which the last is not zero.
   */
  lemma ReadInvertsFormat(n: nat)
    ensures Read(Format(n)) == Some(n) && Canonical(Format(n))
    ensures DotAt(Format(n)) == |Format(n)| <==> n % SCALE == 0
    ensures |Format(n)| <= DotAt(Format(n)) + 10
  {
    ParseInvertsText(n / SCALE, n % SCALE);
  }

  lemma FormatInjective(m: nat, n: nat)
    requires Format(m) == Format(n)
    ensures m == n
  {
    ReadInvertsFormat(m);
    ReadInvertsFormat(n);
  }

  lemma FormatOfParts(whole: nat, frac: nat, n: nat)
    requires frac < SCALE && n == whole * SCALE + frac
    ensures Format(n) == Text(whole, frac)
  {
    DivUnique(n, SCALE, whole);
  }

  /** Of all texts of a number, the printed one is exactly the canonical one. */
  lemma CanonicalIsPrinted(s: string)
    requires Read(s).Some?
    ensures Format(Read(s).value) == s <==> Canonical(s)
  {
    var whole, frac := Parse(s).value.0, Parse(s).value.1;
    ParsedFractionSmall(s);
    FormatOfParts(whole, frac, Read(s).value);
    CanonicalIsText(s, whole, frac);
  }

  lemma CanonicalIsText(s: string, whole: nat, frac: nat)
    requires Parse(s) == Some((whole, frac)) && frac < SCALE
    ensures Text(whole, frac) == s <==> Canonical(s)
  {
    ParseInvertsText(whole, frac);
    if Canonical(s) {
      TextInvertsParse(s);
    }
  }
}
