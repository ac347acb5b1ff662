/** Which bytes survive decoding and encoding again (scripts/ui/src/idl-codec.ts). */
module IdlReencode {
  import opened ByteLayout
  import opened Common
  import opened IntegerCodec
  import opened IdlCodec

  /**
   * The bytes at `offset` are those the encoder would write: nothing is read past the end, a bool is 0 or 1, an
   * option's tag is 0 or 1 and what it holds is neither absent nor the empty string, and an enum's variant has no
   * payload.
   */
  predicate Canonical(env: Env, t: IdlType, bytes: Bytes, offset: nat)
    requires Acyclic(env)
    decreases 2 * TypeRank(env, t), t, 1
  {
    match t
    case Bool => offset < |bytes| && bytes[offset] <= 1
    case Pubkey => offset + 32 <= |bytes|
    case Str => offset + 4 <= |bytes| && offset + 4 + DecodeLength(bytes, offset) <= |bytes|
    case OptionOf(u) =>
      && offset < |bytes|
      && (bytes[offset] == 0
          || (bytes[offset] == 1 && Canonical(env, u, bytes, offset + 1) && Present(Decode(env, u, bytes, offset + 1))))
    case VecOf(u) => offset + 4 <= |bytes| && CanonicalItems(env, u, bytes, offset + 4, DecodeLength(bytes, offset))
    case ArrayOf(_, _) => false
    case Defined(name) => name in env.defs && CanonicalDef(env, name, bytes, offset)
    case _ => offset + IntegerSize(t) <= |bytes|
  }

  /** A value that an option encodes as present. */
  predicate Present(parsed: Parsed<Value>)
  {
    parsed.Ok? && parsed.value.0 != Null && parsed.value.0 != StrV([])
  }

  predicate CanonicalDef(env: Env, name: string, bytes: Bytes, offset: nat)
    requires Acyclic(env) && name in env.defs
    decreases 2 * TypeRank(env, Defined(name)), Defined(name), 0
  {
    match env.defs[name]
    case Struct(fields) => CanonicalFields(env, env.rank[name], fields, bytes, offset)
    case Enum(variants) => offset < |bytes| && bytes[offset] < |variants| && variants[bytes[offset]].payload == []
  }

  predicate CanonicalItems(env: Env, t: IdlType, bytes: Bytes, offset: nat, n: nat)
    requires Acyclic(env)
    decreases 2 * TypeRank(env, t), t, n + 2
  {
    if n == 0 then offset <= |bytes|
    else
      Canonical(env, t, bytes, offset) &&
      match Decode(env, t, bytes, offset)
      case Err(_) => false
      case Ok((_, next)) => CanonicalItems(env, t, bytes, next, n - 1)
  }

  predicate CanonicalFields(env: Env, ghost r: nat, fields: seq<Field>, bytes: Bytes, offset: nat)
    requires Acyclic(env) && FieldsBelow(env, fields, r)
    decreases 2 * r + 1, fields, 0
  {
    if fields == [] then offset <= |bytes|
    else
      Canonical(env, fields[0].typ, bytes, offset) &&
      match Decode(env, fields[0].typ, bytes, offset)
      case Err(_) => false
      case Ok((_, next)) => CanonicalFields(env, r, fields[1..], bytes, next)
  }

  // ---------------------------------------------------------------- canonical bytes are written again

  /** The bytes at `offset` are the encoding of a readable value. */
  ghost predicate Holds(env: Env, t: IdlType, v: Value, encoded: Bytes, bytes: Bytes, offset: nat)
    requires Acyclic(env)
  {
    Readable(env, t, v) && Encode(env, t, v) == Ok(encoded) && At(bytes, offset, encoded)
  }

  lemma AtJoin(bytes: Bytes, offset: nat, a: Bytes, b: Bytes)
    requires At(bytes, offset, a) && At(bytes, offset + |a|, b)
    ensures At(bytes, offset, a + b)
  {
    forall i | 0 <= i < |a + b|
      ensures (a + b)[i] == bytes[offset + i]
    {
      if i >= |a| {
        assert b[i - |a|] == bytes[offset + |a| + (i - |a|)];
      }
    }
  }

  lemma {:induction false} CanonicalReencodes(env: Env, t: IdlType, bytes: Bytes, offset: nat)
    returns (v: Value, encoded: Bytes, end: nat)
    requires Acyclic(env) && Decodable(env, t) && Canonical(env, t, bytes, offset)
    ensures Decode(env, t, bytes, offset) == Ok((v, end)) && end == offset + |encoded|
    ensures Holds(env, t, v, encoded, bytes, offset)
    decreases 2 * TypeRank(env, t), t, 1
  {
    match t {
      case OptionOf(u) =>
        if bytes[offset] == 0 {
          v, encoded, end := Null, [0], offset + 1;
          AbsentHolds(env, u, bytes, offset);
        } else {
          var payload;
          v, payload, end := CanonicalReencodes(env, u, bytes, offset + 1);
          encoded := PresentHolds(env, u, v, payload, bytes, offset, end);
        }
      case VecOf(u) =>
        v, encoded, end := VecReencodes(env, u, bytes, offset);
      case Defined(name) =>
        if env.defs[name].Struct? {
          v, encoded, end := StructReencodes(env, name, bytes, offset);
        } else {
          v, encoded := VariantReencodes(env, name, bytes, offset);
          end := offset + 1;
        }
      case _ =>
        v, encoded, end := PrimitiveReencodes(env, t, bytes, offset);
    }
  }

  lemma AbsentHolds(env: Env, u: IdlType, bytes: Bytes, offset: nat)
    requires Acyclic(env) && offset < |bytes| && bytes[offset] == 0
    ensures Decode(env, OptionOf(u), bytes, offset) == Ok((Null, offset + 1))
      && Holds(env, OptionOf(u), Null, [0], bytes, offset)
  {
  }

  lemma PresentHolds(env: Env, u: IdlType, v: Value, payload: Bytes, bytes: Bytes, offset: nat, end: nat)
    returns (encoded: Bytes)
    requires Acyclic(env) && offset < |bytes| && bytes[offset] == 1 && v != Null && v != StrV([])
    requires Decode(env, u, bytes, offset + 1) == Ok((v, end)) && Holds(env, u, v, payload, bytes, offset + 1)
    ensures Decode(env, OptionOf(u), bytes, offset) == Ok((v, end)) && |encoded| == 1 + |payload|
    ensures Holds(env, OptionOf(u), v, encoded, bytes, offset)
  {
    encoded := [1] + payload;
    AtJoin(bytes, offset, [1], payload);
  }

  lemma LengthReencodes(bytes: Bytes, offset: nat)
    requires offset + 4 <= |bytes|
    ensures DecodeLength(bytes, offset) < Exp(256, 4)
    ensures At(bytes, offset, Encoded(DecodeLength(bytes, offset), 4))
  {
    ValueOfDigits(bytes[offset..offset + 4]);
    BytesRoundTrip(bytes[offset..offset + 4], false);
    AtIsSlice(bytes, offset, bytes[offset..offset + 4]);
  }

  predicate Primitive(t: IdlType)
  {
    t.Bool? || t.Pubkey? || t.Str? || IntegerSize(t) > 0
  }

  lemma PrimitiveReencodes(env: Env, t: IdlType, bytes: Bytes, offset: nat) returns (v: Value, encoded: Bytes, end: nat)
    requires Acyclic(env) && Primitive(t) && Canonical(env, t, bytes, offset)
    ensures Decode(env, t, bytes, offset) == Ok((v, end)) && end == offset + |encoded|
    ensures Holds(env, t, v, encoded, bytes, offset)
  {
    if t.Str? {
      v, encoded := StringReencodes(env, bytes, offset);
    } else if t.Bool? {
      v, encoded := BoolV(bytes[offset] != 0), [bytes[offset]];
    } else if t.Pubkey? {
      v, encoded := KeyV(Sub(bytes, offset, 32)), Sub(bytes, offset, 32);
    } else {
      encoded := bytes[offset..offset + IntegerSize(t)];
      v := IntV(Decoded(encoded, t.I64?));
      AtIsSlice(bytes, offset, encoded);
      IntegerReencodes(encoded, t.I64?);
    }
    end := offset + |encoded|;
  }

  lemma StringReencodes(env: Env, bytes: Bytes, offset: nat) returns (v: Value, encoded: Bytes)
    requires Acyclic(env) && Canonical(env, Str, bytes, offset)
    ensures Decode(env, Str, bytes, offset) == Ok((v, offset + |encoded|)) && Holds(env, Str, v, encoded, bytes, offset)
  {
    LengthReencodes(bytes, offset);
    var n := DecodeLength(bytes, offset);
    var utf8 := bytes[offset + 4..offset + 4 + n];
    AtIsSlice(bytes, offset + 4, utf8);
    AtJoin(bytes, offset, Encoded(n, 4), utf8);
    v, encoded := StrV(utf8), Encoded(n, 4) + utf8;
  }

  lemma IntegerReencodes(bytes: Bytes, signed: bool)
    requires bytes != []
    ensures Encoded(Decoded(bytes, signed), |bytes|) == bytes && InRange(Decoded(bytes, signed), |bytes|, signed)
  {
    BytesRoundTrip(bytes, signed);
    IntegerRoundTrip(Decoded(bytes, signed), |bytes|, signed);
  }

  lemma {:induction false} VecReencodes(env: Env, u: IdlType, bytes: Bytes, offset: nat)
    returns (v: Value, encoded: Bytes, end: nat)
    requires Acyclic(env) && Decodable(env, u) && Canonical(env, VecOf(u), bytes, offset)
    ensures Decode(env, VecOf(u), bytes, offset) == Ok((v, end)) && end == offset + |encoded|
    ensures Holds(env, VecOf(u), v, encoded, bytes, offset)
    decreases 2 * TypeRank(env, u), u, DecodeLength(bytes, offset) + 3
  {
    LengthReencodes(bytes, offset);
    var n := DecodeLength(bytes, offset);
    var items, payload;
    items, payload, end := ItemsReencode(env, u, bytes, offset + 4, n);
    AtJoin(bytes, offset, Encoded(n, 4), payload);
    v, encoded := ListV(items), Encoded(n, 4) + payload;
    VecWritten(env, u, items, payload);
  }

  lemma VecWritten(env: Env, u: IdlType, items: seq<Value>, payload: Bytes)
    requires Acyclic(env) && |items| < Exp(256, 4) && ItemsWritten(env, u, items, payload)
    ensures Readable(env, VecOf(u), ListV(items))
      && Encode(env, VecOf(u), ListV(items)) == Ok(Encoded(|items|, 4) + payload)
  {
  }

  lemma {:induction false} ItemsReencode(env: Env, t: IdlType, bytes: Bytes, offset: nat, n: nat)
    returns (vs: seq<Value>, encoded: Bytes, end: nat)
    requires Acyclic(env) && Decodable(env, t) && CanonicalItems(env, t, bytes, offset, n)
    ensures DecodeAll(env, t, bytes, offset, n) == Ok((vs, end)) && |vs| == n && end == offset + |encoded|
    ensures ItemsWritten(env, t, vs, encoded) && At(bytes, offset, encoded)
    decreases 2 * TypeRank(env, t), t, n + 2
  {
    if n == 0 {
      vs, encoded, end := [], [], offset;
    } else {
      var first, head, next := CanonicalReencodes(env, t, bytes, offset);
      var rest, tail;
      rest, tail, end := ItemsReencode(env, t, bytes, next, n - 1);
      vs, encoded := JoinItems(env, t, first, head, rest, tail);
      AtJoin(bytes, offset, head, tail);
      JoinDecodedItems(env, t, bytes, offset, n, first, next, rest, end, vs);
    }
  }

  /** The encoding of these items, all readable. */
  ghost predicate ItemsWritten(env: Env, t: IdlType, vs: seq<Value>, encoded: Bytes)
    requires Acyclic(env)
  {
    AllReadable(env, t, vs) && EncodeAll(env, t, vs) == Ok(encoded)
  }

  lemma JoinItems(env: Env, t: IdlType, first: Value, head: Bytes, rest: seq<Value>, tail: Bytes)
    returns (vs: seq<Value>, encoded: Bytes)
    requires Acyclic(env) && Readable(env, t, first) && Encode(env, t, first) == Ok(head)
      && ItemsWritten(env, t, rest, tail)
    ensures vs == [first] + rest && encoded == head + tail && |encoded| == |head| + |tail|
      && ItemsWritten(env, t, vs, encoded)
  {
    vs, encoded := [first] + rest, head + tail;
    assert vs[1..] == rest;
  }

  lemma JoinDecodedItems(env: Env, t: IdlType, bytes: Bytes, offset: nat, n: nat, first: Value, next: nat,
                         rest: seq<Value>, end: nat, vs: seq<Value>)
    requires Acyclic(env) && n > 0 && vs == [first] + rest
    requires Decode(env, t, bytes, offset) == Ok((first, next))
      && DecodeAll(env, t, bytes, next, n - 1) == Ok((rest, end))
    ensures DecodeAll(env, t, bytes, offset, n) == Ok((vs, end))
  {
  }

  lemma {:induction false} StructReencodes(env: Env, name: string, bytes: Bytes, offset: nat)
    returns (v: Value, encoded: Bytes, end: nat)
    requires Acyclic(env) && name in env.defs && env.defs[name].Struct? && DecodableDef(env, name)
    requires CanonicalDef(env, name, bytes, offset)
    ensures DecodeDefined(env, name, bytes, offset) == Ok((v, end)) && end == offset + |encoded|
    ensures Holds(env, Defined(name), v, encoded, bytes, offset)
    decreases 2 * env.rank[name] + 1, env.defs[name].fields, 1
  {
    var obj;
    obj, encoded, end := FieldsReencode(env, env.rank[name], env.defs[name].fields, bytes, offset);
    v := ObjV(obj);
    StructDecoded(env, name, bytes, offset, obj, end);
    StructWritten(env, name, obj, encoded);
  }

  lemma StructDecoded(env: Env, name: string, bytes: Bytes, offset: nat, obj: map<string, Value>, end: nat)
    requires Acyclic(env) && name in env.defs && env.defs[name].Struct?
    requires DecodeFields(env, env.rank[name], env.defs[name].fields, bytes, offset) == Ok((obj, end))
    ensures DecodeDefined(env, name, bytes, offset) == Ok((ObjV(obj), end)) && obj.Keys == Names(env.defs[name].fields)
  {
  }

  lemma StructWritten(env: Env, name: string, obj: map<string, Value>, encoded: Bytes)
    requires Acyclic(env) && name in env.defs && env.defs[name].Struct? && obj.Keys == Names(env.defs[name].fields)
    requires FieldsWritten(env, env.rank[name], env.defs[name].fields, obj, encoded)
    ensures Readable(env, Defined(name), ObjV(obj)) && Encode(env, Defined(name), ObjV(obj)) == Ok(encoded)
  {
    assert ReadableDef(env, name, ObjV(obj)) && EncodeDefined(env, name, ObjV(obj)) == Ok(encoded);
  }

  /** The encoding of these fields of an object, all readable. */
  ghost predicate FieldsWritten(env: Env, r: nat, fields: seq<Field>, obj: map<string, Value>, encoded: Bytes)
    requires Acyclic(env) && FieldsBelow(env, fields, r)
  {
    FieldsTyped(env, fields, obj) && EncodeFields(env, r, fields, obj) == Ok(encoded)
  }

  lemma {:induction false} FieldsReencode(env: Env, r: nat, fields: seq<Field>, bytes: Bytes, offset: nat)
    returns (obj: map<string, Value>, encoded: Bytes, end: nat)
    requires Acyclic(env) && FieldsBelow(env, fields, r) && DistinctNames(fields) && AllDecodable(env, fields)
    requires CanonicalFields(env, r, fields, bytes, offset)
    ensures DecodeFields(env, r, fields, bytes, offset) == Ok((obj, end)) && end == offset + |encoded|
    ensures FieldsWritten(env, r, fields, obj, encoded) && At(bytes, offset, encoded)
    decreases 2 * r + 1, fields, 0
  {
    if fields == [] {
      obj, encoded, end := map[], [], offset;
    } else {
      CanonicalFirst(env, r, fields, bytes, offset);
      var v, head, next := CanonicalReencodes(env, fields[0].typ, bytes, offset);
      var rest, tail;
      rest, tail, end := FieldsReencode(env, r, fields[1..], bytes, next);
      obj, encoded := JoinRead(env, r, fields, bytes, offset, v, head, next, rest, tail, end);
    }
  }

  /** What holds of the first field and of the rest holds of the whole. */
  lemma JoinRead(env: Env, r: nat, fields: seq<Field>, bytes: Bytes, offset: nat, v: Value, head: Bytes, next: nat,
                 rest: map<string, Value>, tail: Bytes, end: nat)
    returns (obj: map<string, Value>, encoded: Bytes)
    requires Acyclic(env) && FieldsBelow(env, fields, r) && fields != [] && DistinctNames(fields)
    requires Decodable(env, fields[0].typ) && Holds(env, fields[0].typ, v, head, bytes, offset)
    requires Decode(env, fields[0].typ, bytes, offset) == Ok((v, next)) && next == offset + |head|
    requires DecodeFields(env, r, fields[1..], bytes, next) == Ok((rest, end)) && end == next + |tail|
    requires FieldsWritten(env, r, fields[1..], rest, tail) && At(bytes, next, tail)
    ensures DecodeFields(env, r, fields, bytes, offset) == Ok((obj, end)) && end == offset + |encoded|
    ensures FieldsWritten(env, r, fields, obj, encoded) && At(bytes, offset, encoded)
  {
    AtJoin(bytes, offset, head, tail);
    FirstNotInRest(env, r, fields, bytes, next, rest, end);
    obj, encoded := JoinFields(env, r, fields, v, rest, head, tail);
    JoinDecoded(env, r, fields, bytes, offset, v, next, rest, end, obj);
  }

  lemma FirstNotInRest(env: Env, r: nat, fields: seq<Field>, bytes: Bytes, next: nat, rest: map<string, Value>,
                       end: nat)
    requires Acyclic(env) && FieldsBelow(env, fields, r) && fields != [] && DistinctNames(fields)
    requires DecodeFields(env, r, fields[1..], bytes, next) == Ok((rest, end))
    ensures fields[0].name !in rest
  {
    FirstNameNotLater(fields);
  }

  lemma JoinDecoded(env: Env, r: nat, fields: seq<Field>, bytes: Bytes, offset: nat, v: Value, next: nat,
                    rest: map<string, Value>, end: nat, obj: map<string, Value>)
    requires Acyclic(env) && FieldsBelow(env, fields, r) && fields != [] && obj == map[fields[0].name := v] + rest
    requires Decode(env, fields[0].typ, bytes, offset) == Ok((v, next))
    requires DecodeFields(env, r, fields[1..], bytes, next) == Ok((rest, end))
    ensures DecodeFields(env, r, fields, bytes, offset) == Ok((obj, end))
  {
    DecodeFieldsStep(env, r, fields, bytes, offset, v, next);
  }

  predicate AllDecodable(env: Env, fields: seq<Field>)
    requires Acyclic(env)
  {
    forall i :: 0 <= i < |fields| ==> Decodable(env, fields[i].typ)
  }

  lemma CanonicalFirst(env: Env, r: nat, fields: seq<Field>, bytes: Bytes, offset: nat)
    requires Acyclic(env) && FieldsBelow(env, fields, r) && fields != [] && DistinctNames(fields)
      && AllDecodable(env, fields)
    requires CanonicalFields(env, r, fields, bytes, offset)
    ensures Decodable(env, fields[0].typ) && Canonical(env, fields[0].typ, bytes, offset)
    ensures FieldsBelow(env, fields[1..], r) && DistinctNames(fields[1..]) && AllDecodable(env, fields[1..])
    ensures Decode(env, fields[0].typ, bytes, offset).Ok?
    ensures CanonicalFields(env, r, fields[1..], bytes, Decode(env, fields[0].typ, bytes, offset).value.1)
  {
  }

  /** A first field in front of the others, in the object and in the bytes. */
  lemma JoinFields(env: Env, r: nat, fields: seq<Field>, v: Value, rest: map<string, Value>, head: Bytes, tail: Bytes)
    returns (obj: map<string, Value>, encoded: Bytes)
    requires Acyclic(env) && FieldsBelow(env, fields, r) && fields != [] && DistinctNames(fields)
    requires Decodable(env, fields[0].typ) && Readable(env, fields[0].typ, v)
      && Encode(env, fields[0].typ, v) == Ok(head)
    requires FieldsWritten(env, r, fields[1..], rest, tail) && fields[0].name !in rest
    ensures obj == map[fields[0].name := v] + rest && encoded == head + tail && |encoded| == |head| + |tail|
    ensures FieldsWritten(env, r, fields, obj, encoded)
  {
    obj, encoded := map[fields[0].name := v] + rest, head + tail;
    EncodeFieldsLocal(env, r, fields[1..], rest, obj);
    forall i | 0 <= i < |fields|
      ensures Decodable(env, fields[i].typ) && fields[i].name in obj
        && Readable(env, fields[i].typ, obj[fields[i].name])
    {
      if i > 0 {
        assert fields[i] == fields[1..][i - 1];
      }
    }
  }

  lemma VariantReencodes(env: Env, name: string, bytes: Bytes, offset: nat) returns (v: Value, encoded: Bytes)
    requires Acyclic(env) && name in env.defs && env.defs[name].Enum? && DecodableDef(env, name)
    requires CanonicalDef(env, name, bytes, offset)
    ensures DecodeDefined(env, name, bytes, offset) == Ok((v, offset + 1)) && |encoded| == 1
    ensures Holds(env, Defined(name), v, encoded, bytes, offset)
  {
    var variants := env.defs[name].variants;
    v, encoded := VariantV(variants[bytes[offset]].name, []), [bytes[offset]];
    assert ReadableDef(env, name, v);
    var i := VariantEncoded(env, name, v);
    OneVariant(variants, i, bytes[offset]);
    assert EncodeDefined(env, name, v) == Ok(encoded);
  }

  // ---------------------------------------------------------------- what is written is canonical

  lemma {:induction false} EncodingIsCanonical(env: Env, t: IdlType, v: Value, encoded: Bytes, bytes: Bytes,
                                               offset: nat)
    requires Acyclic(env) && Decodable(env, t) && Readable(env, t, v)
    requires Encode(env, t, v) == Ok(encoded) && At(bytes, offset, encoded)
    ensures Canonical(env, t, bytes, offset)
    decreases 2 * TypeRank(env, t), t, 1
  {
    match t {
      case OptionOf(u) =>
        assert encoded[0] == bytes[offset];
        if v != Null {
          var payload := Encode(env, u, v).value;
          AtSplit(bytes, offset, [1], payload);
          EncodingIsCanonical(env, u, v, payload, bytes, offset + 1);
          RoundTrip(env, u, v, payload, bytes, offset + 1);
        }
      case VecOf(u) =>
        var payload := EncodeAll(env, u, v.items).value;
        AtSplit(bytes, offset, Encoded(|v.items|, 4), payload);
        LengthRoundTrip(|v.items|, bytes, offset);
        ItemsAreCanonical(env, u, v.items, payload, bytes, offset + 4);
      case Defined(name) =>
        if env.defs[name].Struct? {
          var fields := env.defs[name].fields;
          FieldsAreCanonical(env, env.rank[name], fields, v.fields, encoded, bytes, offset);
        } else {
          VariantIsCanonical(env, name, v, encoded, bytes, offset);
        }
      case _ => PrimitiveIsCanonical(env, t, v, encoded, bytes, offset);
    }
  }

  lemma PrimitiveIsCanonical(env: Env, t: IdlType, v: Value, encoded: Bytes, bytes: Bytes, offset: nat)
    requires Acyclic(env) && Primitive(t) && HasPrimitive(t, v)
    requires EncodePrimitive(t, v) == Ok(encoded) && At(bytes, offset, encoded)
    ensures Canonical(env, t, bytes, offset)
  {
    if t.Str? {
      AtSplit(bytes, offset, Encoded(|v.utf8|, 4), v.utf8);
      LengthRoundTrip(|v.utf8|, bytes, offset);
    } else if t.Bool? {
      assert encoded[0] == bytes[offset];
    }
  }

  lemma {:induction false} ItemsAreCanonical(env: Env, t: IdlType, vs: seq<Value>, encoded: Bytes, bytes: Bytes,
                                             offset: nat)
    requires Acyclic(env) && Decodable(env, t) && AllReadable(env, t, vs)
    requires EncodeAll(env, t, vs) == Ok(encoded) && At(bytes, offset, encoded)
    ensures CanonicalItems(env, t, bytes, offset, |vs|)
    decreases 2 * TypeRank(env, t), t, |vs| + 2
  {
    if vs == [] {
    } else {
      var head, tail := EncodeAllParts(env, t, vs, encoded, bytes, offset);
      FirstReadable(env, t, vs);
      ItemIsCanonical(env, t, vs[0], head, bytes, offset);
      ItemsAreCanonical(env, t, vs[1..], tail, bytes, offset + |head|);
      CanonicalItemsStep(env, t, bytes, offset, |vs|, vs[0], offset + |head|);
    }
  }

  lemma {:induction false} ItemIsCanonical(env: Env, t: IdlType, v: Value, encoded: Bytes, bytes: Bytes, offset: nat)
    requires Acyclic(env) && Decodable(env, t) && Readable(env, t, v)
    requires Encode(env, t, v) == Ok(encoded) && At(bytes, offset, encoded)
    ensures Canonical(env, t, bytes, offset) && Decode(env, t, bytes, offset) == Ok((v, offset + |encoded|))
    decreases 2 * TypeRank(env, t), t, 2
  {
    EncodingIsCanonical(env, t, v, encoded, bytes, offset);
    RoundTrip(env, t, v, encoded, bytes, offset);
  }

  lemma CanonicalItemsStep(env: Env, t: IdlType, bytes: Bytes, offset: nat, n: nat, v: Value, next: nat)
    requires Acyclic(env) && n > 0 && Canonical(env, t, bytes, offset) && Decode(env, t, bytes, offset) == Ok((v, next))
    requires CanonicalItems(env, t, bytes, next, n - 1)
    ensures CanonicalItems(env, t, bytes, offset, n)
  {
  }

  lemma {:induction false} FieldsAreCanonical(env: Env, r: nat, fields: seq<Field>, values: map<string, Value>,
                                              encoded: Bytes, bytes: Bytes, offset: nat)
    requires Acyclic(env) && FieldsBelow(env, fields, r) && DistinctNames(fields) && FieldsTyped(env, fields, values)
    requires EncodeFields(env, r, fields, values) == Ok(encoded) && At(bytes, offset, encoded)
    ensures CanonicalFields(env, r, fields, bytes, offset)
    decreases 2 * r + 1, fields, 0
  {
    if fields == [] {
    } else {
      var head, tail := EncodeFieldsParts(env, r, fields, values, encoded, bytes, offset);
      FieldsTypedRest(env, fields, values);
      EncodingIsCanonical(env, fields[0].typ, values[fields[0].name], head, bytes, offset);
      RoundTrip(env, fields[0].typ, values[fields[0].name], head, bytes, offset);
      FieldsAreCanonical(env, r, fields[1..], values, tail, bytes, offset + |head|);
      CanonicalFieldsStep(env, r, fields, bytes, offset, values[fields[0].name], offset + |head|);
    }
  }

  lemma CanonicalFieldsStep(env: Env, r: nat, fields: seq<Field>, bytes: Bytes, offset: nat, v: Value, next: nat)
    requires Acyclic(env) && FieldsBelow(env, fields, r) && fields != []
    requires Canonical(env, fields[0].typ, bytes, offset) && Decode(env, fields[0].typ, bytes, offset) == Ok((v, next))
    requires CanonicalFields(env, r, fields[1..], bytes, next)
    ensures CanonicalFields(env, r, fields, bytes, offset)
  {
  }

  lemma VariantIsCanonical(env: Env, name: string, v: Value, encoded: Bytes, bytes: Bytes, offset: nat)
    requires Acyclic(env) && name in env.defs && env.defs[name].Enum? && DecodableDef(env, name)
      && ReadableDef(env, name, v)
    requires EncodeDefined(env, name, v) == Ok(encoded) && At(bytes, offset, encoded)
    ensures CanonicalDef(env, name, bytes, offset)
  {
    var i := VariantEncoded(env, name, v);
    assert encoded[0] == bytes[offset];
    PlainVariant(env.defs[name].variants, v, i);
  }

  lemma PlainVariant(variants: seq<Variant>, v: Value, i: nat)
    requires DistinctVariants(variants) && i < |variants| && v == VariantV(variants[i].name, [])
    requires exists k :: 0 <= k < |variants| && variants[k].name == v.name && variants[k].payload == []
    ensures variants[i].payload == []
  {
    var k :| 0 <= k < |variants| && variants[k].name == v.name && variants[k].payload == [];
    OneVariant(variants, k, i);
  }

  // ---------------------------------------------------------------- whatever is decoded

  /** A decoded value that can be encoded at all is of the type. */
  lemma {:induction false} DecodedHasType(env: Env, t: IdlType, bytes: Bytes, offset: nat, v: Value, next: nat)
    requires Acyclic(env) && Decodable(env, t) && Decode(env, t, bytes, offset) == Ok((v, next))
      && Encode(env, t, v).Ok?
    ensures HasType(env, t, v)
    decreases 2 * TypeRank(env, t), t, 1
  {
    match t {
      case OptionOf(u) =>
        if v != Null && v != StrV([]) {
          DecodedHasType(env, u, bytes, offset + 1, v, next);
        }
      case VecOf(u) =>
        var n := DecodeLength(bytes, offset);
        LengthBelow(bytes, offset);
        DecodedItemsHaveType(env, u, bytes, offset + 4, n, v.items, next);
      case Defined(name) =>
        if env.defs[name].Struct? {
          DecodedStructHasType(env, name, bytes, offset, v, next);
        } else {
          DecodedVariantHasType(env, name, bytes, offset, v, next);
        }
      case _ => DecodedPrimitive(t, bytes, offset, v);
    }
  }

  lemma LengthBelow(bytes: Bytes, offset: nat)
    ensures DecodeLength(bytes, offset) < Exp(256, 4)
  {
    ShortIsSmall(Sub(bytes, offset, 4), 4);
  }

  lemma ShortIsSmall(bytes: Bytes, n: nat)
    requires |bytes| <= n
    ensures FromLittleEndian(bytes) < Exp(256, |bytes|) <= Exp(256, n)
  {
    ValueOfDigits(bytes);
    ExpAdds(256, |bytes|, n - |bytes|);
    ExpPositive(256, n - |bytes|);
    ExpPositive(256, |bytes|);
    MulMonotone(Exp(256, |bytes|), Exp(256, |bytes|), 1, Exp(256, n - |bytes|));
  }

  lemma DecodedPrimitive(t: IdlType, bytes: Bytes, offset: nat, v: Value)
    requires Primitive(t) && DecodePrimitive(t, bytes, offset).0 == v && EncodePrimitive(t, v).Ok?
    ensures HasPrimitive(t, v)
  {
    if t.Str? {
      LengthBelow(bytes, offset);
    } else if !t.Bool? && !t.Pubkey? {
      DecodedInteger(Sub(bytes, offset, IntegerSize(t)), IntegerSize(t), t.I64?);
    }
  }

  lemma DecodedInteger(bytes: Bytes, n: nat, signed: bool)
    requires |bytes| <= n && n > 0
    ensures InRange(Decoded(bytes, signed), n, signed)
  {
    ShortIsSmall(bytes, n);
    if bytes != [] {
      IntegerReencodes(bytes, signed);
    }
  }

  lemma {:induction false} DecodedItemsHaveType(env: Env, t: IdlType, bytes: Bytes, offset: nat, n: nat,
                                                vs: seq<Value>, next: nat)
    requires Acyclic(env) && Decodable(env, t) && DecodeAll(env, t, bytes, offset, n) == Ok((vs, next))
    requires EncodeAll(env, t, vs).Ok?
    ensures AllHaveType(env, t, vs)
    decreases 2 * TypeRank(env, t), t, n + 2
  {
    if n == 0 {
    } else {
      var first := Decode(env, t, bytes, offset).value;
      assert vs[0] == first.0 && vs[1..] == DecodeAll(env, t, bytes, first.1, n - 1).value.0;
      DecodedHasType(env, t, bytes, offset, first.0, first.1);
      DecodedItemsHaveType(env, t, bytes, first.1, n - 1, vs[1..], next);
      assert vs == [vs[0]] + vs[1..];
    }
  }

  lemma {:induction false} DecodedStructHasType(env: Env, name: string, bytes: Bytes, offset: nat, v: Value, next: nat)
    requires Acyclic(env) && name in env.defs && env.defs[name].Struct? && DecodableDef(env, name)
    requires DecodeDefined(env, name, bytes, offset) == Ok((v, next)) && EncodeDefined(env, name, v).Ok?
    ensures HasDef(env, name, v)
    decreases 2 * env.rank[name] + 1, env.defs[name].fields, 1
  {
    DecodedFieldsHaveType(env, env.rank[name], env.defs[name].fields, bytes, offset, v.fields, next);
  }

  lemma {:induction false} DecodedFieldsHaveType(env: Env, r: nat, fields: seq<Field>, bytes: Bytes, offset: nat,
                                                 obj: map<string, Value>, next: nat)
    requires Acyclic(env) && FieldsBelow(env, fields, r) && DistinctNames(fields)
    requires AllDecodable(env, fields)
    requires DecodeFields(env, r, fields, bytes, offset) == Ok((obj, next)) && EncodeFields(env, r, fields, obj).Ok?
    ensures FieldsHaveType(env, fields, obj)
    decreases 2 * r + 1, fields, 0
  {
    if fields == [] {
    } else {
      var (v, middle) := Decode(env, fields[0].typ, bytes, offset).value;
      DecodeFieldsStep(env, r, fields, bytes, offset, v, middle);
      var rest := DecodeFields(env, r, fields[1..], bytes, middle).value.0;
      FirstNameNotLater(fields);
      RestOfObject(env, r, fields, v, rest, obj);
      DecodedHasType(env, fields[0].typ, bytes, offset, v, middle);
      DecodedFieldsHaveType(env, r, fields[1..], bytes, middle, rest, next);
      JoinTypes(env, fields, v, rest, obj);
    }
  }

  lemma RestOfObject(env: Env, r: nat, fields: seq<Field>, v: Value, rest: map<string, Value>, obj: map<string, Value>)
    requires Acyclic(env) && FieldsBelow(env, fields, r) && fields != [] && DistinctNames(fields)
    requires obj == map[fields[0].name := v] + rest && fields[0].name !in rest && rest.Keys == Names(fields[1..])
    requires EncodeFields(env, r, fields, obj).Ok?
    ensures Encode(env, fields[0].typ, v).Ok? && EncodeFields(env, r, fields[1..], rest).Ok?
  {
    assert obj[fields[0].name] == v;
    EncodeFieldsLocal(env, r, fields[1..], rest, obj);
  }

  lemma JoinTypes(env: Env, fields: seq<Field>, v: Value, rest: map<string, Value>, obj: map<string, Value>)
    requires Acyclic(env) && fields != [] && obj == map[fields[0].name := v] + rest && fields[0].name !in rest
    requires Decodable(env, fields[0].typ) && HasType(env, fields[0].typ, v) && FieldsHaveType(env, fields[1..], rest)
    ensures FieldsHaveType(env, fields, obj)
  {
    forall i | 0 <= i < |fields|
      ensures Decodable(env, fields[i].typ) && fields[i].name in obj && HasType(env, fields[i].typ, obj[fields[i].name])
    {
      if i > 0 {
        assert fields[i] == fields[1..][i - 1];
      }
    }
  }

  lemma DecodedVariantHasType(env: Env, name: string, bytes: Bytes, offset: nat, v: Value, next: nat)
    requires Acyclic(env) && name in env.defs && env.defs[name].Enum? && DecodableDef(env, name)
    requires DecodeDefined(env, name, bytes, offset) == Ok((v, next)) && EncodeDefined(env, name, v).Ok?
    ensures HasDef(env, name, v)
  {
    var variants := env.defs[name].variants;
    VariantFound(variants, bytes[offset]);
    assert EncodeVariant(env, env.rank[name], bytes[offset], variants[bytes[offset]].payload, v.payload).Ok?;
  }

  /** Of all bytes that can be decoded, exactly the canonical ones are what the decoded value encodes to. */
  lemma ReencodesIffCanonical(env: Env, t: IdlType, bytes: Bytes, offset: nat, v: Value, next: nat)
    requires Acyclic(env) && Decodable(env, t) && Decode(env, t, bytes, offset) == Ok((v, next))
    ensures Canonical(env, t, bytes, offset) <==> next <= |bytes| && Encode(env, t, v) == Ok(bytes[offset..next])
  {
    if Canonical(env, t, bytes, offset) {
      CanonicalIsWritten(env, t, bytes, offset, v, next);
    }
    if next <= |bytes| && Encode(env, t, v) == Ok(bytes[offset..next]) {
      WrittenIsCanonical(env, t, bytes, offset, v, bytes[offset..next]);
    }
  }

  lemma CanonicalIsWritten(env: Env, t: IdlType, bytes: Bytes, offset: nat, v: Value, next: nat)
    requires Acyclic(env) && Decodable(env, t) && Decode(env, t, bytes, offset) == Ok((v, next))
    requires Canonical(env, t, bytes, offset)
    ensures next <= |bytes| && Encode(env, t, v) == Ok(bytes[offset..next])
  {
    var _, encoded, _ := CanonicalReencodes(env, t, bytes, offset);
    AtIsSlice(bytes, offset, encoded);
  }

  lemma WrittenIsCanonical(env: Env, t: IdlType, bytes: Bytes, offset: nat, v: Value, encoded: Bytes)
    requires Acyclic(env) && Decodable(env, t) && Decode(env, t, bytes, offset) == Ok((v, offset + |encoded|))
    requires offset + |encoded| <= |bytes| && encoded == bytes[offset..offset + |encoded|]
      && Encode(env, t, v) == Ok(encoded)
    ensures Canonical(env, t, bytes, offset)
  {
    DecodedHasType(env, t, bytes, offset, v, offset + |encoded|);
    AtIsSlice(bytes, offset, encoded);
    RoundTripIffReadable(env, t, v, encoded, bytes, offset);
    EncodingIsCanonical(env, t, v, encoded, bytes, offset);
  }
}
