/** The bytes of the primitive types, written and read, and what the codec refuses (scripts/ui/src/idl-codec.ts). */
module IdlBytes {
  import opened ByteLayout
  import opened Common
  import opened IntegerCodec
  import opened IdlCodec

  // ---------------------------------------------------------------- writing

  /** The four low base-256 digits of a number, the lowest first. */
  function FourDigits(i: int): (digits: Bytes)
  {
    [i % 256, i / 256 % 256, i / 0x1_0000 % 256, i / 0x100_0000 % 256]
  }

  /** Powers of 256 up to the widest integer. */
  lemma BytePowers()
    ensures Exp(256, 0) == 1 && Exp(256, 1) == 0x100 && Exp(256, 2) == 0x1_0000 && Exp(256, 3) == 0x100_0000
    ensures Exp(256, 4) == 0x1_0000_0000 && Exp(256, 5) == 0x100_0000_0000 && Exp(256, 6) == 0x1_0000_0000_0000
    ensures Exp(256, 7) == 0x100_0000_0000_0000 && Exp(256, 8) == 0x1_0000_0000_0000_0000
  {
    ExpAdds(256, 4, 1);
    ExpAdds(256, 4, 2);
    ExpAdds(256, 4, 3);
    ExpAdds(256, 4, 4);
  }

  lemma FirstDigits(i: int, n: nat)
    requires n <= 8
    ensures forall k :: 0 <= k < n ==> Encoded(i, n)[k] == Digit(i, k)
  {
    forall k | 0 <= k < n
      ensures Encoded(i, n)[k] == Digit(i, k)
    {
      EncodedDigit(i, n, k);
    }
  }

  lemma LowDigits(i: int)
    ensures FourDigits(i) == [Digit(i, 0), Digit(i, 1), Digit(i, 2), Digit(i, 3)]
  {
    BytePowers();
  }

  lemma HighDigits(i: int)
    ensures FourDigits(i / 0x1_0000_0000) == [Digit(i, 4), Digit(i, 5), Digit(i, 6), Digit(i, 7)]
  {
    BytePowers();
    DivDivBy(i, 0x1_0000_0000, 0x100);
    DivDivBy(i, 0x1_0000_0000, 0x1_0000);
    DivDivBy(i, 0x1_0000_0000, 0x100_0000);
  }

  lemma DivDivBy(v: int, c: int, d: int)
    requires c > 0 && d > 0
    ensures v / c / d == v / (c * d)
  {
    var q := v / c / d;
    DivBounds(v / c, d);
    DivBounds(v, c);
    MulMonotone(1, c, 1, d);
    assert q * (c * d) == (q * d) * c;
    MulMonotoneLeft(q * d, v / c, c);
    MulMonotoneLeft(v / c + 1, q * d + d, c);
    assert (q * d + d) * c == q * (c * d) + c * d;
    assert (v / c + 1) * c == v / c * c + c;
    DivUnique(v, c * d, q);
  }

  lemma FewBytes(i: int)
    ensures Encoded(i, 1) == [i % 256] && Encoded(i, 2) == [i % 256, i / 256 % 256] && Encoded(i, 4) == FourDigits(i)
  {
    FirstDigits(i, 1);
    FirstDigits(i, 2);
    FirstDigits(i, 4);
    LowDigits(i);
    BytePowers();
  }

  lemma EightBytes(i: int)
    ensures Encoded(i, 8) == FourDigits(i) + FourDigits(i / 0x1_0000_0000)
  {
    FirstDigits(i, 8);
    LowDigits(i);
    HighDigits(i);
  }

  /** Integers of 1, 2, 4 and 8 bytes, for every integer, negative ones and those out of range included. */
  lemma IntegerBytes(env: Env, i: int)
    requires Acyclic(env)
    ensures Encode(env, U8, IntV(i)) == Ok([i % 256])
    ensures Encode(env, U16, IntV(i)) == Ok([i % 256, i / 256 % 256])
    ensures Encode(env, U32, IntV(i)) == Ok(FourDigits(i))
    ensures Encode(env, U64, IntV(i)) == Ok(FourDigits(i) + FourDigits(i / 0x1_0000_0000))
    ensures Encode(env, I64, IntV(i)) == Ok(FourDigits(i) + FourDigits(i / 0x1_0000_0000))
  {
    FewBytes(i);
    EightBytes(i);
  }

  /** The other primitives: one byte of 0 or 1, the 32 bytes of a key, the bytes of a string behind their number. */
  lemma OtherPrimitiveBytes(env: Env, b: bool, key: Key, utf8: Bytes)
    requires Acyclic(env)
    ensures Encode(env, Bool, BoolV(b)) == Ok(if b then [1] else [0])
    ensures Encode(env, Pubkey, KeyV(key)) == Ok(key)
    ensures Encode(env, Str, StrV(utf8)) == Ok(FourDigits(|utf8|) + utf8)
  {
    FewBytes(|utf8|);
  }

  /** The values of the primitive types. */
  lemma PrimitiveRanges(env: Env, v: Value)
    requires Acyclic(env)
    ensures HasType(env, Bool, v) <==> v.BoolV?
    ensures HasType(env, Pubkey, v) <==> v.KeyV? && |v.key| == 32
    ensures HasType(env, Str, v) <==> v.StrV? && |v.utf8| <= 0xFFFF_FFFF
    ensures HasType(env, U8, v) <==> v.IntV? && 0 <= v.i <= 0xFF
    ensures HasType(env, U16, v) <==> v.IntV? && 0 <= v.i <= 0xFFFF
    ensures HasType(env, U32, v) <==> v.IntV? && 0 <= v.i <= 0xFFFF_FFFF
    ensures HasType(env, U64, v) <==> v.IntV? && 0 <= v.i <= 0xFFFF_FFFF_FFFF_FFFF
    ensures HasType(env, I64, v) <==> v.IntV? && -0x8000_0000_0000_0000 <= v.i <= 0x7FFF_FFFF_FFFF_FFFF
  {
    BytePowers();
  }

  // ---------------------------------------------------------------- reading

  /** The number that two bytes stand for, the lowest first. */
  function TwoBytes(bytes: Bytes, offset: nat): nat
    requires offset + 2 <= |bytes|
  {
    var low: nat, high: nat := bytes[offset], bytes[offset + 1];
    low + 0x100 * high
  }

  /** ... and four. */
  function FourBytes(bytes: Bytes, offset: nat): nat
    requires offset + 4 <= |bytes|
  {
    TwoBytes(bytes, offset) + 0x1_0000 * TwoBytes(bytes, offset + 2)
  }

  lemma FewBytesValue(bytes: Bytes, offset: nat)
    ensures offset + 1 <= |bytes| ==> FromLittleEndian(Sub(bytes, offset, 1)) == bytes[offset]
    ensures offset + 2 <= |bytes| ==> FromLittleEndian(Sub(bytes, offset, 2)) == TwoBytes(bytes, offset)
    ensures offset + 4 <= |bytes| ==> FromLittleEndian(Sub(bytes, offset, 4)) == FourBytes(bytes, offset)
  {
    if offset + 1 <= |bytes| {
      OneByteValue(bytes[offset]);
      assert Sub(bytes, offset, 1) == [bytes[offset]];
    }
    if offset + 2 <= |bytes| {
      TwoBytesValue(bytes[offset], bytes[offset + 1]);
      assert Sub(bytes, offset, 2) == [bytes[offset], bytes[offset + 1]];
    }
    if offset + 4 <= |bytes| {
      TwoBytesValue(bytes[offset + 2], bytes[offset + 3]);
      BytesSplit([bytes[offset], bytes[offset + 1]], [bytes[offset + 2], bytes[offset + 3]]);
      TwoBytesValue(bytes[offset], bytes[offset + 1]);
      assert Sub(bytes, offset, 4) == [bytes[offset], bytes[offset + 1]] + [bytes[offset + 2], bytes[offset + 3]];
      BytePowers();
    }
  }

  lemma OneByteValue(b: u8)
    ensures FromLittleEndian([b]) == b
  {
  }

  lemma TwoBytesValue(b: u8, c: u8)
    ensures FromLittleEndian([b, c]) == b + 0x100 * c
  {
    OneByteValue(c);
    assert [b, c][1..] == [c];
  }

  /** The value of a longer string of bytes. */
  lemma {:induction false} BytesSplit(a: Bytes, b: Bytes)
    ensures FromLittleEndian(a + b) == FromLittleEndian(a) + Exp(256, |a|) * FromLittleEndian(b)
  {
    if a == [] {
      assert a + b == b;
    } else {
      assert (a + b)[1..] == a[1..] + b;
      BytesSplit(a[1..], b);
      assert 256 * (Exp(256, |a| - 1) * FromLittleEndian(b)) == Exp(256, |a|) * FromLittleEndian(b);
    }
  }

  lemma EightBytesValue(bytes: Bytes, offset: nat)
    requires offset + 8 <= |bytes|
    ensures FromLittleEndian(Sub(bytes, offset, 8))
         == FourBytes(bytes, offset) + 0x1_0000_0000 * FourBytes(bytes, offset + 4)
  {
    FewBytesValue(bytes, offset);
    FewBytesValue(bytes, offset + 4);
    assert Sub(bytes, offset, 8) == Sub(bytes, offset, 4) + Sub(bytes, offset + 4, 4);
    BytesSplit(Sub(bytes, offset, 4), Sub(bytes, offset + 4, 4));
    BytePowers();
  }

  /** What any bytes are read as, also those the encoder does not write. */
  lemma PrimitivesRead(env: Env, bytes: Bytes, offset: nat)
    requires Acyclic(env)
    ensures offset + 1 <= |bytes| ==>
      && Decode(env, Bool, bytes, offset) == Ok((BoolV(bytes[offset] != 0), offset + 1))
      && Decode(env, U8, bytes, offset) == Ok((IntV(bytes[offset]), offset + 1))
    ensures offset + 2 <= |bytes| ==>
      Decode(env, U16, bytes, offset) == Ok((IntV(TwoBytes(bytes, offset)), offset + 2))
    ensures offset + 4 <= |bytes| ==>
      Decode(env, U32, bytes, offset) == Ok((IntV(FourBytes(bytes, offset)), offset + 4))
    ensures offset + 8 <= |bytes| ==>
      var v := FourBytes(bytes, offset) + 0x1_0000_0000 * FourBytes(bytes, offset + 4);
      && Decode(env, U64, bytes, offset) == Ok((IntV(v), offset + 8))
      && Decode(env, I64, bytes, offset)
         == Ok((IntV(if v >= 0x8000_0000_0000_0000 then v - 0x1_0000_0000_0000_0000 else v), offset + 8))
    ensures offset + 32 <= |bytes| ==>
      Decode(env, Pubkey, bytes, offset) == Ok((KeyV(bytes[offset..offset + 32]), offset + 32))
  {
    FewBytesValue(bytes, offset);
    if offset + 8 <= |bytes| {
      EightBytesValue(bytes, offset);
    }
    BytePowers();
  }

  /** ... and a string: four bytes of length, then as many bytes, or those that are left. */
  lemma StringRead(env: Env, bytes: Bytes, offset: nat)
    requires Acyclic(env) && offset + 4 <= |bytes|
    ensures var n := FourBytes(bytes, offset);
      Decode(env, Str, bytes, offset) == Ok((
        StrV(if offset + 4 + n <= |bytes| then bytes[offset + 4..offset + 4 + n] else bytes[offset + 4..]),
        offset + 4 + n))
  {
    FewBytesValue(bytes, offset);
    assert bytes[|bytes|..] == [];
  }

  /** Behind the end of the buffer a number reads as zero, a bool as true, the rest as empty or absent. */
  lemma ReadingPastTheEnd(env: Env, u: IdlType, bytes: Bytes, offset: nat)
    requires Acyclic(env) && offset >= |bytes|
    ensures Decode(env, Bool, bytes, offset) == Ok((BoolV(true), offset + 1))
    ensures Decode(env, U8, bytes, offset) == Ok((IntV(0), offset + 1))
    ensures Decode(env, U16, bytes, offset) == Ok((IntV(0), offset + 2))
    ensures Decode(env, U32, bytes, offset) == Ok((IntV(0), offset + 4))
    ensures Decode(env, U64, bytes, offset) == Ok((IntV(0), offset + 8))
    ensures Decode(env, I64, bytes, offset) == Ok((IntV(0), offset + 8))
    ensures Decode(env, Str, bytes, offset) == Ok((StrV([]), offset + 4))
    ensures Decode(env, OptionOf(u), bytes, offset) == Ok((Null, offset + 1))
    ensures Decode(env, VecOf(u), bytes, offset) == Ok((ListV([]), offset + 4))
  {
    assert bytes[|bytes|..] == [];
  }

  // ---------------------------------------------------------------- names and refusals

  /** Name matching ignores every underscore and hyphen and the case of every letter, and nothing else. */
  lemma {:induction false} NormalizedCharacter(before: string, c: char, after: string)
    ensures Normalize([]) == []
    ensures Normalize(before + [c] + after) == Normalize(before)
      + (if c == '_' || c == '-' then [] else if 'A' <= c <= 'Z' then [(c as int + 32) as char] else [c])
      + Normalize(after)
  {
    var name := before + [c] + after;
    if before == [] {
      assert name == [c] + after;
      assert name[1..] == after;
    } else {
      assert name[0] == before[0] && name[1..] == before[1..] + [c] + after;
      NormalizedCharacter(before[1..], c, after);
    }
  }

  /**
   * What is refused, and with which error: a type that is not defined, an array of another length, any array when
   * decoding, a name that matches no variant and an index beyond the variants.
   */
  lemma CodecRefusals(env: Env, name: string, u: IdlType, length: nat, v: Value, bytes: Bytes, offset: nat)
    requires Acyclic(env)
    ensures name !in env.defs ==>
      Encode(env, Defined(name), v) == Err(UnknownType) && Decode(env, Defined(name), bytes, offset) == Err(UnknownType)
    ensures v.ListV? && |v.items| != length ==> Encode(env, ArrayOf(u, length), v) == Err(ArrayLength)
    ensures Decode(env, ArrayOf(u, length), bytes, offset) == Err(Unsupported)
    ensures name in env.defs && env.defs[name].Enum? ==>
      var variants := env.defs[name].variants;
      && (v.VariantV? && (forall i :: 0 <= i < |variants| ==> Normalize(variants[i].name) != Normalize(v.name)) ==>
            Encode(env, Defined(name), v) == Err(InvalidVariant))
      && (Decode(env, Defined(name), bytes, offset) ==
          if offset < |bytes| && bytes[offset] < |variants|
          then Ok((VariantV(variants[bytes[offset]].name, []), offset + 1)) else Err(InvalidVariant))
  {
    if name in env.defs && env.defs[name].Enum? && v.VariantV? {
      var found := FindNormalized(env.defs[name].variants, v.name);
    }
  }
}
