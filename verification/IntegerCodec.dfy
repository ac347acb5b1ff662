/** Little-endian integers of the Borsh codec (scripts/ui/src/idl-codec.ts). */
module IntegerCodec {
  import opened Common

  type Bytes = seq<u8>

  // ---------------------------------------------------------------- digits

  /** The `n` least significant base-256 digits of `v`, least significant first. */
  function LittleEndian(v: nat, n: nat): (bytes: Bytes)
    ensures |bytes| == n
  {
    if n == 0 then [] else [v % 256] + LittleEndian(v / 256, n - 1)
  }

  function FromLittleEndian(bytes: Bytes): (v: nat)
  {
    if bytes == [] then 0 else bytes[0] + 256 * FromLittleEndian(bytes[1..])
  }

  lemma {:induction false} DigitsOfValue(v: nat, n: nat)
    requires v < Exp(256, n)
    ensures FromLittleEndian(LittleEndian(v, n)) == v
  {
    if n == 0 {
    } else {
      assert v / 256 < Exp(256, n - 1);
      DigitsOfValue(v / 256, n - 1);
      assert LittleEndian(v, n)[1..] == LittleEndian(v / 256, n - 1);
    }
  }

  lemma LowDigit(b: u8, rest: nat)
    ensures (b + 256 * rest) % 256 == b && (b + 256 * rest) / 256 == rest
  {
  }

  lemma {:induction false} ValueOfDigits(bytes: Bytes)
    ensures FromLittleEndian(bytes) < Exp(256, |bytes|)
    ensures LittleEndian(FromLittleEndian(bytes), |bytes|) == bytes
  {
    if bytes == [] {
    } else {
      var rest := bytes[1..];
      ValueOfDigits(rest);
      LowDigit(bytes[0], FromLittleEndian(rest));
      assert Exp(256, |bytes|) == 256 * Exp(256, |rest|);
      assert LittleEndian(FromLittleEndian(bytes), |bytes|)
        == [bytes[0]] + LittleEndian(FromLittleEndian(rest), |rest|);
    }
  }

  lemma {:induction false} AppendDigit(bytes: Bytes, b: u8)
    ensures FromLittleEndian(bytes + [b]) == FromLittleEndian(bytes) + b * Exp(256, |bytes|)
  {
    if bytes == [] {
    } else {
      assert (bytes + [b])[1..] == bytes[1..] + [b];
      AppendDigit(bytes[1..], b);
      assert 256 * (b * Exp(256, |bytes| - 1)) == b * Exp(256, |bytes|);
    }
  }

  /** The digit a shift by `8 i` bits and a mask of 8 bits select, also for negative integers. */
  function Digit(v: int, i: nat): u8
  {
    ExpPositive(256, i);
    (v / Exp(256, i)) % 256
  }

  /** Dividing by 256 first and by `256^i` next is dividing by `256^(i+1)`. */
  lemma DivDiv(v: int, d: int)
    requires d > 0
    ensures (v / 256) / d == v / (256 * d)
  {
    var q := (v / 256) / d;
    DivBounds(v / 256, d);
    DivBounds(v, 256);
    assert q * (256 * d) == 256 * (q * d);
    DivUnique(v, 256 * d, q);
  }

  lemma {:induction false} DigitsAreDigits(v: nat, n: nat, i: nat)
    requires i < n
    ensures LittleEndian(v, n)[i] == Digit(v, i)
  {
    if i == 0 {
    } else {
      DigitsAreDigits(v / 256, n - 1, i - 1);
      ExpPositive(256, i - 1);
      DivDiv(v, Exp(256, i - 1));
    }
  }

  /** Adding a multiple of `256^n` does not change the lower digits. */
  lemma DigitsModulo(v: int, k: int, n: nat, i: nat)
    requires i < n
    ensures Digit(v + k * Exp(256, n), i) == Digit(v, i)
  {
    ExpPositive(256, i);
    SplitPower(k, n, i);
    DigitsOfSum(v, k * Exp(256, n), k * Exp(256, n - i - 1), Exp(256, i));
  }

  lemma DigitsOfSum(v: int, x: int, m: int, d: int)
    requires d > 0 && x == (256 * m) * d
    ensures ((v + x) / d) % 256 == (v / d) % 256
  {
    DivPlusMultiple(v, 256 * m, d);
    ModPlusMultiple(v / d, m);
  }

  lemma ModPlusMultiple(q: int, m: int)
    ensures (q + 256 * m) % 256 == q % 256
  {
  }

  lemma SplitPower(k: int, n: nat, i: nat)
    requires i < n
    ensures k * Exp(256, n) == (256 * (k * Exp(256, n - i - 1))) * Exp(256, i)
  {
    ExpAdds(256, i, n - i);
    assert Exp(256, n - i) == 256 * Exp(256, n - i - 1);
    Regroup(k, Exp(256, i), Exp(256, n - i - 1));
  }

  lemma Regroup(k: int, d: int, e: int)
    ensures k * (d * (256 * e)) == (256 * (k * e)) * d
  {
    assert k * (d * e) == (k * e) * d;
  }

  lemma DivPlusMultiple(v: int, m: int, d: int)
    requires d > 0
    ensures (v + m * d) / d == v / d + m
  {
    DivBounds(v, d);
    assert (v / d + m) * d == (v / d) * d + m * d;
    DivUnique(v + m * d, d, v / d + m);
  }

  // ---------------------------------------------------------------- encodeInteger, decodeInteger

  /** What `encodeInteger` writes for any integer: its residue, whatever the signedness. */
  function Encoded(v: int, n: nat): (bytes: Bytes)
    ensures |bytes| == n
  {
    ExpPositive(256, n);
    LittleEndian(v % Exp(256, n), n)
  }

  /** `encodeInteger`: shifts the value byte by byte into a buffer. */
  method EncodeInteger(value: int, byteLength: nat, signed: bool) returns (buffer: array<u8>)
    ensures fresh(buffer) && buffer[..] == Encoded(value, byteLength)
  {
    var bigint, max := value, Exp(256, byteLength);
    if signed && bigint < 0 {
      bigint := max + bigint;
    }
    ExpPositive(256, byteLength);
    buffer := new u8[byteLength];
    for i := 0 to byteLength
      invariant forall j :: 0 <= j < i ==> buffer[j] == Digit(value, j)
    {
      DigitsModulo(value, 1, byteLength, i);
      buffer[i] := Digit(bigint, i);
    }
    forall i | 0 <= i < byteLength
      ensures buffer[i] == Encoded(value, byteLength)[i]
    {
      EncodedDigit(value, byteLength, i);
    }
  }

  lemma EncodedDigit(v: int, n: nat, i: nat)
    requires i < n
    ensures Encoded(v, n)[i] == Digit(v, i)
  {
    ExpPositive(256, n);
    QuotientRemainder(v, Exp(256, n));
    DigitsAreDigits(v % Exp(256, n), n, i);
    DigitsModulo(v % Exp(256, n), v / Exp(256, n), n, i);
  }

  lemma QuotientRemainder(v: int, d: int)
    requires d > 0
    ensures v == v % d + (v / d) * d
  {
  }

  /** What `decodeInteger` reads: the value, or its two's-complement representative. */
  function Decoded(bytes: Bytes, signed: bool): int
  {
    var v := FromLittleEndian(bytes);
    if signed && bytes != [] && 2 * v >= Exp(256, |bytes|) then v - Exp(256, |bytes|) else v
  }

  /**
   * `decodeInteger`. The bits or-ed in lie above those already set, so `|=` adds; no bytes have no sign bit, since
   * `1n << -1n` is zero.
   */
  method DecodeInteger(bytes: Bytes, signed: bool) returns (value: int)
    ensures value == Decoded(bytes, signed)
  {
    value := 0;
    for i := 0 to |bytes|
      invariant value == FromLittleEndian(bytes[..i])
    {
      assert bytes[..i + 1] == bytes[..i] + [bytes[i]];
      AppendDigit(bytes[..i], bytes[i]);
      value := value + bytes[i] * Exp(256, i);
    }
    assert bytes[..|bytes|] == bytes;
    if signed && bytes != [] {
      ValueOfDigits(bytes);
      var signBit := 128 * Exp(256, |bytes| - 1);
      if value >= signBit {
        value := value - Exp(256, |bytes|);
      }
    }
  }

  /** The integers a type of `n` bytes represents. */
  predicate InRange(v: int, n: nat, signed: bool)
  {
    if signed then -Exp(256, n) <= 2 * v < Exp(256, n) else 0 <= v < Exp(256, n)
  }

  /**
   * Encoding then decoding is the identity exactly on the type's range; outside it, it is the representative in
   * range.
   */
  lemma IntegerRoundTrip(v: int, n: nat, signed: bool)
    requires n > 0
    ensures Decoded(Encoded(v, n), signed) == v <==> InRange(v, n, signed)
    ensures InRange(Decoded(Encoded(v, n), signed), n, signed)
    ensures exists k :: v == Decoded(Encoded(v, n), signed) + Multiple(k, n)
  {
    var max := Exp(256, n);
    ExpPositive(256, n);
    DigitsOfValue(v % max, n);
    QuotientRemainder(v, max);
    assert Encoded(v, n) != [] && max == 2 * (128 * Exp(256, n - 1));
    NextMultiple(v, n);
    if InRange(v, n, signed) {
      ResidueInRange(v, max, signed);
    }
  }

  lemma NextMultiple(v: int, n: nat)
    ensures Exp(256, n) > 0 && v % Exp(256, n) < Exp(256, n)
    ensures v == v % Exp(256, n) + Multiple(v / Exp(256, n), n)
    ensures v == v % Exp(256, n) - Exp(256, n) + Multiple(v / Exp(256, n) + 1, n)
  {
    ExpPositive(256, n);
    QuotientRemainder(v, Exp(256, n));
    assert (v / Exp(256, n) + 1) * Exp(256, n) == (v / Exp(256, n)) * Exp(256, n) + Exp(256, n);
  }

  function Multiple(k: int, n: nat): int { k * Exp(256, n) }

  lemma ResidueInRange(v: int, max: int, signed: bool)
    requires max > 0 && if signed then -max <= 2 * v < max else 0 <= v < max
    ensures v % max == if v < 0 then v + max else v
  {
    DivUnique(v, max, if v < 0 then -1 else 0);
  }

  /** Decoding then encoding is the identity on every byte string. */
  lemma BytesRoundTrip(bytes: Bytes, signed: bool)
    ensures Encoded(Decoded(bytes, signed), |bytes|) == bytes
  {
    var max := Exp(256, |bytes|);
    ExpPositive(256, |bytes|);
    ValueOfDigits(bytes);
    var v := FromLittleEndian(bytes);
    DivUnique(v, max, 0);
    DivUnique(v - max, max, -1);
  }
}
