/** The Borsh codec driven by IDL type descriptors (scripts/ui/src/idl-codec.ts). */
module IdlCodec {
  import opened ByteLayout
  import opened Common
  import opened IntegerCodec

  // ---------------------------------------------------------------- types and values

  datatype IdlType =
    | Bool | Pubkey | Str | U8 | U16 | U32 | U64 | I64
    | OptionOf(inner: IdlType) | VecOf(inner: IdlType) | ArrayOf(inner: IdlType, length: nat) | Defined(name: string)

  datatype Field = Field(name: string, typ: IdlType)

  datatype Variant = Variant(name: string, payload: seq<IdlType>)

  datatype TypeDef = Struct(fields: seq<Field>) | Enum(variants: seq<Variant>)

  /** Values as the codec passes them; strings are their UTF-8 bytes, keys their 32 bytes. */
  datatype Value =
    | Null | BoolV(b: bool) | IntV(i: int) | KeyV(key: Bytes) | StrV(utf8: Bytes)
    | ListV(items: seq<Value>) | ObjV(fields: map<string, Value>) | VariantV(name: string, payload: seq<Value>)

  datatype CodecError = UnknownType | Unsupported | ArrayLength | InvalidVariant | IllTyped

  /** The defined types, with a rank showing that no type contains itself. */
  datatype Env = Env(defs: map<string, TypeDef>, rank: map<string, nat>)

  function TypeRank(env: Env, t: IdlType): nat
  {
    match t
    case OptionOf(u) => TypeRank(env, u)
    case VecOf(u) => TypeRank(env, u)
    case ArrayOf(u, _) => TypeRank(env, u)
    case Defined(name) => if name in env.rank then env.rank[name] + 1 else 0
    case _ => 0
  }

  predicate FieldsBelow(env: Env, fields: seq<Field>, r: nat)
  {
    forall i :: 0 <= i < |fields| ==> TypeRank(env, fields[i].typ) <= r
  }

  predicate TypesBelow(env: Env, types: seq<IdlType>, r: nat)
  {
    forall i :: 0 <= i < |types| ==> TypeRank(env, types[i]) <= r
  }

  predicate Acyclic(env: Env)
  {
    forall name :: name in env.defs ==>
      name in env.rank &&
      match env.defs[name]
      case Struct(fields) => FieldsBelow(env, fields, env.rank[name])
      case Enum(variants) => forall i :: 0 <= i < |variants| ==> TypesBelow(env, variants[i].payload, env.rank[name])
  }

  /** `integerByteLength`, zero for the types that are not integers. */
  function IntegerSize(t: IdlType): nat
  {
    match t
    case U8 => 1
    case U16 => 2
    case U32 => 4
    case U64 => 8
    case I64 => 8
    case _ => 0
  }

  // ---------------------------------------------------------------- variant names

  function Lower(c: char): char
  {
    if 'A' <= c <= 'Z' then c - 'A' + 'a' else c
  }

  /** `normalizeName`, on ASCII letters. */
  function Normalize(name: string): string
  {
    if name == [] then []
    else if name[0] == '_' || name[0] == '-' then Normalize(name[1..])
    else [Lower(name[0])] + Normalize(name[1..])
  }

  /** First variant whose normalised name matches. */
  function FindNormalized(variants: seq<Variant>, name: string): (r: Option<nat>)
    ensures r.Some? ==> r.value < |variants| && Normalize(variants[r.value].name) == Normalize(name)
    ensures r.Some? ==> forall i :: 0 <= i < r.value ==> Normalize(variants[i].name) != Normalize(name)
    ensures r.None? ==> forall i :: 0 <= i < |variants| ==> Normalize(variants[i].name) != Normalize(name)
  {
    if variants == [] then None
    else if Normalize(variants[0].name) == Normalize(name) then Some(0)
    else
      match FindNormalized(variants[1..], name)
      case None => None
      case Some(i) => Some(i + 1)
  }

  /** First variant with exactly this name. */
  function FindExact(variants: seq<Variant>, name: string): (r: Option<nat>)
    ensures r.Some? ==> r.value < |variants| && variants[r.value].name == name
    ensures r.Some? ==> forall i :: 0 <= i < r.value ==> variants[i].name != name
    ensures r.None? ==> forall i :: 0 <= i < |variants| ==> variants[i].name != name
  {
    if variants == [] then None
    else if variants[0].name == name then Some(0)
    else
      match FindExact(variants[1..], name)
      case None => None
      case Some(i) => Some(i + 1)
  }

  // ---------------------------------------------------------------- encoding

  function Append(a: Result<Bytes, CodecError>, b: Result<Bytes, CodecError>): Result<Bytes, CodecError>
  {
    if a.Err? then a else if b.Err? then b else Ok(a.value + b.value)
  }

  /** `encodePrimitive`. */
  function EncodePrimitive(t: IdlType, v: Value): Result<Bytes, CodecError>
  {
    match t
    case Bool => if v.BoolV? then Ok([if v.b then 1 else 0]) else Err(IllTyped)
    case Pubkey => if v.KeyV? && |v.key| == 32 then Ok(v.key) else Err(IllTyped)
    case Str => if v.StrV? then Ok(Encoded(|v.utf8|, 4) + v.utf8) else Err(IllTyped)
    case _ => if v.IntV? then Ok(Encoded(v.i, IntegerSize(t))) else Err(IllTyped)
  }

  /** `encodeType`. */
  function Encode(env: Env, t: IdlType, v: Value): Result<Bytes, CodecError>
    requires Acyclic(env)
    decreases 2 * TypeRank(env, t), t, 1
  {
    match t
    case OptionOf(u) =>
      if v == Null || v == StrV([]) then Ok([0]) else Append(Ok([1]), Encode(env, u, v))
    case VecOf(u) =>
      if v.ListV? then Append(Ok(Encoded(|v.items|, 4)), EncodeAll(env, u, v.items)) else Err(IllTyped)
    case ArrayOf(u, length) =>
      if !v.ListV? then Err(IllTyped)
      else if |v.items| != length then Err(ArrayLength)
      else EncodeAll(env, u, v.items)
    case Defined(name) => EncodeDefined(env, name, v)
    case _ => EncodePrimitive(t, v)
  }

  /** `encodeDefined`. */
  function EncodeDefined(env: Env, name: string, v: Value): Result<Bytes, CodecError>
    requires Acyclic(env)
    decreases 2 * TypeRank(env, Defined(name)), Defined(name), 0
  {
    if name !in env.defs then Err(UnknownType)
    else
      match env.defs[name]
      case Struct(fields) =>
        if v.ObjV? then EncodeFields(env, env.rank[name], fields, v.fields) else Err(IllTyped)
      case Enum(variants) =>
        if !v.VariantV? then Err(IllTyped)
        else
          match FindNormalized(variants, v.name)
          case None => Err(InvalidVariant)
          case Some(found) =>
            var index := FindExact(variants, variants[found].name);
            if index.None? then Err(InvalidVariant)
            else EncodeVariant(env, env.rank[name], index.value, variants[found].payload, v.payload)
  }

  /** One byte of index, then the payload. */
  function EncodeVariant(env: Env, ghost r: nat, index: nat, types: seq<IdlType>,
                         values: seq<Value>): Result<Bytes, CodecError>
    requires Acyclic(env) && TypesBelow(env, types, r)
    decreases 2 * r + 1, types, 1
  {
    if |values| != |types| then Err(IllTyped)
    else Append(Ok([index % 256]), EncodeEach(env, r, types, values))
  }

  function EncodeAll(env: Env, t: IdlType, vs: seq<Value>): Result<Bytes, CodecError>
    requires Acyclic(env)
    decreases 2 * TypeRank(env, t), t, |vs| + 2
  {
    if vs == [] then Ok([]) else Append(Encode(env, t, vs[0]), EncodeAll(env, t, vs[1..]))
  }

  function EncodeFields(env: Env, ghost r: nat, fields: seq<Field>,
                        values: map<string, Value>): Result<Bytes, CodecError>
    requires Acyclic(env) && FieldsBelow(env, fields, r)
    decreases 2 * r + 1, fields, 0
  {
    if fields == [] then Ok([])
    else if fields[0].name !in values then Err(IllTyped)
    else Append(Encode(env, fields[0].typ, values[fields[0].name]), EncodeFields(env, r, fields[1..], values))
  }

  function EncodeEach(env: Env, ghost r: nat, types: seq<IdlType>, values: seq<Value>): Result<Bytes, CodecError>
    requires Acyclic(env) && TypesBelow(env, types, r) && |types| == |values|
    decreases 2 * r + 1, types, 0
  {
    if types == [] then Ok([])
    else Append(Encode(env, types[0], values[0]), EncodeEach(env, r, types[1..], values[1..]))
  }

  // ---------------------------------------------------------------- decoding

  /** `bytes.subarray(start, start + length)`, which stops at the end of the buffer. */
  function Sub(bytes: Bytes, start: nat, length: nat): (r: Bytes)
    ensures start + length <= |bytes| ==> r == bytes[start..start + length]
  {
    if start >= |bytes| then []
    else if start + length > |bytes| then bytes[start..]
    else bytes[start..start + length]
  }

  type Parsed<T> = Result<(T, nat), CodecError>

  /** The length prefix of strings and vectors. */
  function DecodeLength(bytes: Bytes, offset: nat): nat
  {
    FromLittleEndian(Sub(bytes, offset, 4))
  }

  /** The primitives of `decodeType`. Reading past the end yields what the buffer operations yield there. */
  function DecodePrimitive(t: IdlType, bytes: Bytes, offset: nat): (Value, nat)
  {
    match t
    case Bool => (BoolV(offset >= |bytes| || bytes[offset] != 0), offset + 1)
    case Pubkey => (KeyV(Sub(bytes, offset, 32)), offset + 32)
    case Str =>
      var length := DecodeLength(bytes, offset);
      (StrV(Sub(bytes, offset + 4, length)), offset + 4 + length)
    case _ => (IntV(Decoded(Sub(bytes, offset, IntegerSize(t)), t.I64?)), offset + IntegerSize(t))
  }

  /** `decodeType`. */
  function Decode(env: Env, t: IdlType, bytes: Bytes, offset: nat): (r: Parsed<Value>)
    requires Acyclic(env)
    ensures r.Ok? ==> r.value.1 >= offset
    decreases 2 * TypeRank(env, t), t, 1
  {
    match t
    case OptionOf(u) =>
      if offset < |bytes| && bytes[offset] == 1 then Decode(env, u, bytes, offset + 1) else Ok((Null, offset + 1))
    case VecOf(u) =>
      (match DecodeAll(env, u, bytes, offset + 4, DecodeLength(bytes, offset))
       case Err(e) => Err(e)
       case Ok((items, next)) => Ok((ListV(items), next)))
    case ArrayOf(_, _) => Err(Unsupported)
    case Defined(name) => DecodeDefined(env, name, bytes, offset)
    case _ => Ok(DecodePrimitive(t, bytes, offset))
  }

  /** `decodeDefined`. */
  function DecodeDefined(env: Env, name: string, bytes: Bytes, offset: nat): (r: Parsed<Value>)
    requires Acyclic(env)
    ensures r.Ok? ==> r.value.1 >= offset
    decreases 2 * TypeRank(env, Defined(name)), Defined(name), 0
  {
    if name !in env.defs then Err(UnknownType)
    else
      match env.defs[name]
      case Struct(fields) =>
        (match DecodeFields(env, env.rank[name], fields, bytes, offset)
         case Err(e) => Err(e)
         case Ok((obj, next)) => Ok((ObjV(obj), next)))
      case Enum(variants) =>
        if offset >= |bytes| || bytes[offset] >= |variants| then Err(InvalidVariant)
        else Ok((VariantV(variants[bytes[offset]].name, []), offset + 1))
  }

  function DecodeAll(env: Env, t: IdlType, bytes: Bytes, offset: nat, n: nat): (r: Parsed<seq<Value>>)
    requires Acyclic(env)
    ensures r.Ok? ==> r.value.1 >= offset && |r.value.0| == n
    decreases 2 * TypeRank(env, t), t, n + 2
  {
    if n == 0 then Ok(([], offset))
    else
      match Decode(env, t, bytes, offset)
      case Err(e) => Err(e)
      case Ok((v, next)) => Prepend([v], DecodeAll(env, t, bytes, next, n - 1))
  }

  function Prepend(vs: seq<Value>, rest: Parsed<seq<Value>>): Parsed<seq<Value>>
  {
    match rest
    case Err(e) => Err(e)
    case Ok((ws, end)) => Ok((vs + ws, end))
  }

  function DecodeFields(env: Env, ghost r: nat, fields: seq<Field>, bytes: Bytes,
                        offset: nat): (parsed: Parsed<map<string, Value>>)
    requires Acyclic(env) && FieldsBelow(env, fields, r)
    ensures parsed.Ok? ==> parsed.value.1 >= offset && parsed.value.0.Keys == Names(fields)
    decreases 2 * r + 1, fields, 0
  {
    if fields == [] then Ok((map[], offset))
    else
      match Decode(env, fields[0].typ, bytes, offset)
      case Err(e) => Err(e)
      case Ok((v, next)) =>
        assert Names(fields) == {fields[0].name} + Names(fields[1..]);
        Extend(map[fields[0].name := v], DecodeFields(env, r, fields[1..], bytes, next))
  }

  /** Later fields win, as repeated assignment to the object does. */
  function Extend(obj: map<string, Value>, rest: Parsed<map<string, Value>>): Parsed<map<string, Value>>
  {
    match rest
    case Err(e) => Err(e)
    case Ok((more, end)) => Ok((obj + more, end))
  }

  // ---------------------------------------------------------------- the decoder's loops

  /** `decodeType`. */
  method DecodeType(env: Env, t: IdlType, bytes: Bytes, offset: nat) returns (r: Parsed<Value>)
    requires Acyclic(env)
    ensures r == Decode(env, t, bytes, offset)
    decreases 2 * TypeRank(env, t), t, 1
  {
    match t {
      case OptionOf(u) =>
        if offset < |bytes| && bytes[offset] == 1 {
          r := DecodeType(env, u, bytes, offset + 1);
        } else {
          r := Ok((Null, offset + 1));
        }
      case VecOf(u) =>
        r := DecodeVec(env, u, bytes, offset + 4, DecodeLength(bytes, offset));
      case Defined(name) =>
        if name in env.defs && env.defs[name].Struct? {
          r := DecodeStruct(env, env.rank[name], env.defs[name].fields, bytes, offset);
        } else {
          r := Decode(env, t, bytes, offset);
        }
      case Str =>
        var length := DecodeU32(bytes, offset);
        r := Ok((StrV(Sub(bytes, offset + 4, length)), offset + 4 + length));
      case U8 => r := DecodeInt(t, bytes, offset);
      case U16 => r := DecodeInt(t, bytes, offset);
      case U32 => r := DecodeInt(t, bytes, offset);
      case U64 => r := DecodeInt(t, bytes, offset);
      case I64 => r := DecodeInt(t, bytes, offset);
      case _ => r := Decode(env, t, bytes, offset);
    }
  }

  method DecodeInt(t: IdlType, bytes: Bytes, offset: nat) returns (r: Parsed<Value>)
    ensures r == Ok((IntV(Decoded(Sub(bytes, offset, IntegerSize(t)), t.I64?)), offset + IntegerSize(t)))
  {
    var value := DecodeInteger(Sub(bytes, offset, IntegerSize(t)), t.I64?);
    r := Ok((IntV(value), offset + IntegerSize(t)));
  }

  method DecodeU32(bytes: Bytes, offset: nat) returns (length: nat)
    ensures length == DecodeLength(bytes, offset)
  {
    length := DecodeInteger(Sub(bytes, offset, 4), false);
  }

  /** The vector loop, with its moving cursor. */
  method DecodeVec(env: Env, t: IdlType, bytes: Bytes, start: nat, length: nat) returns (r: Parsed<Value>)
    requires Acyclic(env)
    ensures r == match DecodeAll(env, t, bytes, start, length)
                 case Err(e) => Err(e)
                 case Ok((items, next)) => Ok((ListV(items), next))
    decreases 2 * TypeRank(env, t), t, length + 2
  {
    var values: seq<Value>, cursor := [], start;
    PrependNothing(DecodeAll(env, t, bytes, start, length));
    for i := 0 to length
      invariant DecodeAll(env, t, bytes, start, length) == Prepend(values, DecodeAll(env, t, bytes, cursor, length - i))
    {
      var next := DecodeType(env, t, bytes, cursor);
      if next.Err? {
        return Err(next.error);
      }
      var (v, after) := next.value;
      PrependTwice(values, v, DecodeAll(env, t, bytes, after, length - i - 1));
      values, cursor := values + [v], after;
    }
    assert values + [] == values;
    r := Ok((ListV(values), cursor));
  }

  lemma PrependNothing(rest: Parsed<seq<Value>>)
    ensures Prepend([], rest) == rest
  {
    assert rest.Ok? ==> [] + rest.value.0 == rest.value.0;
  }

  lemma PrependTwice(vs: seq<Value>, v: Value, rest: Parsed<seq<Value>>)
    ensures Prepend(vs, Prepend([v], rest)) == Prepend(vs + [v], rest)
  {
    assert rest.Ok? ==> vs + ([v] + rest.value.0) == (vs + [v]) + rest.value.0;
  }

  /** The struct loop, which fills the object field by field. */
  method DecodeStruct(env: Env, ghost bound: nat, fields: seq<Field>, bytes: Bytes, start: nat)
    returns (r: Parsed<Value>)
    requires Acyclic(env) && FieldsBelow(env, fields, bound)
    ensures r == match DecodeFields(env, bound, fields, bytes, start)
                 case Err(e) => Err(e)
                 case Ok((obj, next)) => Ok((ObjV(obj), next))
    decreases 2 * bound + 1, fields, 1
  {
    var values: map<string, Value>, cursor := map[], start;
    assert fields[0..] == fields;
    ExtendNothing(DecodeFields(env, bound, fields, bytes, start));
    for i := 0 to |fields|
      invariant DecodeFields(env, bound, fields, bytes, start)
             == Extend(values, DecodeFields(env, bound, fields[i..], bytes, cursor))
    {
      assert fields[i..][1..] == fields[i + 1..];
      var next := DecodeType(env, fields[i].typ, bytes, cursor);
      if next.Err? {
        return Err(next.error);
      }
      var (v, after) := next.value;
      ExtendTwice(values, fields[i].name, v, DecodeFields(env, bound, fields[i + 1..], bytes, after));
      values, cursor := values[fields[i].name := v], after;
    }
    assert values + map[] == values;
    r := Ok((ObjV(values), cursor));
  }

  lemma ExtendNothing(rest: Parsed<map<string, Value>>)
    ensures Extend(map[], rest) == rest
  {
    assert rest.Ok? ==> map[] + rest.value.0 == rest.value.0;
  }

  lemma ExtendTwice(obj: map<string, Value>, name: string, v: Value, rest: Parsed<map<string, Value>>)
    ensures Extend(obj, Extend(map[name := v], rest)) == Extend(obj[name := v], rest)
  {
    assert rest.Ok? ==> obj + (map[name := v] + rest.value.0) == obj[name := v] + rest.value.0;
  }

  // ---------------------------------------------------------------- the round-trip fragment

  /** Types that can be decoded: no arrays, distinct field names, distinct normalised variant names. */
  predicate Decodable(env: Env, t: IdlType)
    requires Acyclic(env)
    decreases TypeRank(env, t), t, 1
  {
    match t
    case OptionOf(u) => Decodable(env, u)
    case VecOf(u) => Decodable(env, u)
    case ArrayOf(_, _) => false
    case Defined(name) => name in env.defs && DecodableDef(env, name)
    case _ => true
  }

  predicate DecodableDef(env: Env, name: string)
    requires Acyclic(env) && name in env.defs
    decreases TypeRank(env, Defined(name)), Defined(name), 0
  {
    match env.defs[name]
    case Struct(fields) => DistinctNames(fields) && forall i :: 0 <= i < |fields| ==> Decodable(env, fields[i].typ)
    case Enum(_) => EncodableDef(env, name)
  }

  predicate DistinctNames(fields: seq<Field>)
  {
    forall i, j :: 0 <= i < j < |fields| ==> fields[i].name != fields[j].name
  }

  predicate DistinctVariants(variants: seq<Variant>)
  {
    && |variants| <= 256
    && forall i, j :: 0 <= i < j < |variants| ==> Normalize(variants[i].name) != Normalize(variants[j].name)
  }

  function Names(fields: seq<Field>): set<string>
  {
    set i | 0 <= i < |fields| :: fields[i].name
  }

  predicate HasPrimitive(t: IdlType, v: Value)
  {
    match t
    case Bool => v.BoolV?
    case Pubkey => v.KeyV? && |v.key| == 32
    case Str => v.StrV? && |v.utf8| < Exp(256, 4)
    case _ => v.IntV? && InRange(v.i, IntegerSize(t), t.I64?)
  }

  /**
   * Values of a type, by its name in the IDL. A present option may not hold null, and the encoder of an option takes
   * the empty string whatever the option's type.
   */
  ghost predicate HasType(env: Env, t: IdlType, v: Value)
    requires Acyclic(env)
    decreases TypeRank(env, t), t, 1
  {
    match t
    case OptionOf(u) => v == Null || v == StrV([]) || HasType(env, u, v)
    case VecOf(u) => v.ListV? && |v.items| < Exp(256, 4) && forall i :: 0 <= i < |v.items| ==>
      HasType(env, u, v.items[i])
    case ArrayOf(u, length) => v.ListV? && |v.items| == length && forall i :: 0 <= i < |v.items| ==>
      HasType(env, u, v.items[i])
    case Defined(name) => name in env.defs && HasDef(env, name, v)
    case _ => HasPrimitive(t, v)
  }

  ghost predicate HasDef(env: Env, name: string, v: Value)
    requires Acyclic(env) && name in env.defs
    decreases TypeRank(env, Defined(name)), Defined(name), 0
  {
    match env.defs[name]
    case Struct(fields) =>
      && v.ObjV? && v.fields.Keys == Names(fields)
      && forall i :: 0 <= i < |fields| ==>
        fields[i].name in v.fields && HasType(env, fields[i].typ, v.fields[fields[i].name])
    case Enum(variants) =>
      && v.VariantV?
      && exists i :: 0 <= i < |variants| && variants[i].name == v.name && |variants[i].payload| == |v.payload|
           && forall k :: 0 <= k < |v.payload| ==> HasType(env, variants[i].payload[k], v.payload[k])
  }

  /** The values of a type that hold no empty string in an option and no enum payload, at any depth. */
  ghost predicate Readable(env: Env, t: IdlType, v: Value)
    requires Acyclic(env)
    decreases TypeRank(env, t), t, 1
  {
    match t
    case OptionOf(u) => v == Null || (v != StrV([]) && Readable(env, u, v))
    case VecOf(u) => v.ListV? && |v.items| < Exp(256, 4) && forall i :: 0 <= i < |v.items| ==>
      Readable(env, u, v.items[i])
    case ArrayOf(u, length) => v.ListV? && |v.items| == length && forall i :: 0 <= i < |v.items| ==>
      Readable(env, u, v.items[i])
    case Defined(name) => name in env.defs && ReadableDef(env, name, v)
    case _ => HasPrimitive(t, v)
  }

  ghost predicate ReadableDef(env: Env, name: string, v: Value)
    requires Acyclic(env) && name in env.defs
    decreases TypeRank(env, Defined(name)), Defined(name), 0
  {
    match env.defs[name]
    case Struct(fields) =>
      && v.ObjV? && v.fields.Keys == Names(fields)
      && forall i :: 0 <= i < |fields| ==>
        fields[i].name in v.fields && Readable(env, fields[i].typ, v.fields[fields[i].name])
    case Enum(variants) =>
      && v.VariantV? && v.payload == []
      && exists i :: 0 <= i < |variants| && variants[i].name == v.name && variants[i].payload == []
  }

  lemma LengthRoundTrip(n: nat, bytes: Bytes, offset: nat)
    requires n < Exp(256, 4) && At(bytes, offset, Encoded(n, 4))
    ensures DecodeLength(bytes, offset) == n
  {
    AtIsSlice(bytes, offset, Encoded(n, 4));
    ResidueInRange(n, Exp(256, 4), false);
    DigitsOfValue(n, 4);
  }

  /** Any variant name of a plain enum is found at its own index. */
  lemma VariantFound(variants: seq<Variant>, i: nat)
    requires DistinctVariants(variants) && i < |variants|
    ensures FindNormalized(variants, variants[i].name) == Some(i)
    ensures FindExact(variants, variants[i].name) == Some(i)
  {
    var found, exact := FindNormalized(variants, variants[i].name), FindExact(variants, variants[i].name);
    OneVariant(variants, found.value, i);
    OneVariant(variants, exact.value, i);
  }

  lemma OneVariant(variants: seq<Variant>, i: nat, j: nat)
    requires DistinctVariants(variants) && i < |variants| && j < |variants|
    requires Normalize(variants[i].name) == Normalize(variants[j].name)
    ensures i == j
  {
  }

  /** Types whose every value can be encoded: known names, and variant names that stay apart when normalised. */
  predicate Encodable(env: Env, t: IdlType)
    requires Acyclic(env)
    decreases TypeRank(env, t), t, 1
  {
    match t
    case OptionOf(u) => Encodable(env, u)
    case VecOf(u) => Encodable(env, u)
    case ArrayOf(u, _) => Encodable(env, u)
    case Defined(name) => name in env.defs && EncodableDef(env, name)
    case _ => true
  }

  predicate EncodableDef(env: Env, name: string)
    requires Acyclic(env) && name in env.defs
    decreases TypeRank(env, Defined(name)), Defined(name), 0
  {
    match env.defs[name]
    case Struct(fields) => forall i :: 0 <= i < |fields| ==> Encodable(env, fields[i].typ)
    case Enum(variants) =>
      && DistinctVariants(variants)
      && forall i, k :: 0 <= i < |variants| && 0 <= k < |variants[i].payload| ==> Encodable(env, variants[i].payload[k])
  }

  lemma {:induction false} DecodableIsEncodable(env: Env, t: IdlType)
    requires Acyclic(env) && Decodable(env, t)
    ensures Encodable(env, t)
    decreases TypeRank(env, t), t
  {
    match t {
      case OptionOf(u) => DecodableIsEncodable(env, u);
      case VecOf(u) => DecodableIsEncodable(env, u);
      case Defined(name) =>
        if env.defs[name].Struct? {
          var fields := env.defs[name].fields;
          forall i | 0 <= i < |fields|
            ensures Encodable(env, fields[i].typ)
          {
            DecodableIsEncodable(env, fields[i].typ);
          }
        }
      case _ =>
    }
  }

  /** Every value of an encodable type is encoded. */
  lemma {:induction false} EncodeSucceeds(env: Env, t: IdlType, v: Value)
    requires Acyclic(env) && Encodable(env, t) && HasType(env, t, v)
    ensures Encode(env, t, v).Ok?
    decreases 2 * TypeRank(env, t), t, 1
  {
    match t {
      case OptionOf(u) =>
        if v != Null && v != StrV([]) {
          EncodeSucceeds(env, u, v);
        }
      case VecOf(u) => EncodeAllSucceeds(env, u, v.items);
      case ArrayOf(u, _) => EncodeAllSucceeds(env, u, v.items);
      case Defined(name) =>
        if env.defs[name].Struct? {
          EncodeFieldsSucceeds(env, env.rank[name], env.defs[name].fields, v.fields);
        } else {
          EncodeVariantSucceeds(env, name, v);
        }
      case _ =>
    }
  }

  lemma {:induction false} EncodeVariantSucceeds(env: Env, name: string, v: Value)
    requires Acyclic(env) && name in env.defs && env.defs[name].Enum? && EncodableDef(env, name) && HasDef(env, name, v)
    ensures EncodeDefined(env, name, v).Ok?
    decreases 2 * TypeRank(env, Defined(name)), Defined(name), 0
  {
    var variants := env.defs[name].variants;
    var i :| 0 <= i < |variants| && variants[i].name == v.name && |variants[i].payload| == |v.payload|
      && forall k :: 0 <= k < |v.payload| ==> HasType(env, variants[i].payload[k], v.payload[k]);
    VariantFound(variants, i);
    EncodeEachSucceeds(env, env.rank[name], variants[i].payload, v.payload);
    assert EncodeVariant(env, env.rank[name], i, variants[i].payload, v.payload).Ok?;
  }

  lemma {:induction false} EncodeAllSucceeds(env: Env, t: IdlType, vs: seq<Value>)
    requires Acyclic(env) && Encodable(env, t) && forall i :: 0 <= i < |vs| ==> HasType(env, t, vs[i])
    ensures EncodeAll(env, t, vs).Ok?
    decreases 2 * TypeRank(env, t), t, |vs| + 2
  {
    if vs == [] {
    } else {
      EncodeSucceeds(env, t, vs[0]);
      EncodeAllSucceeds(env, t, vs[1..]);
    }
  }

  lemma {:induction false} EncodeFieldsSucceeds(env: Env, r: nat, fields: seq<Field>, values: map<string, Value>)
    requires Acyclic(env) && FieldsBelow(env, fields, r)
    requires forall i :: 0 <= i < |fields| ==>
      Encodable(env, fields[i].typ) && fields[i].name in values && HasType(env, fields[i].typ, values[fields[i].name])
    ensures EncodeFields(env, r, fields, values).Ok?
    decreases 2 * r + 1, fields, 0
  {
    if fields == [] {
    } else {
      EncodeSucceeds(env, fields[0].typ, values[fields[0].name]);
      EncodeFieldsSucceeds(env, r, fields[1..], values);
    }
  }

  lemma {:induction false} EncodeEachSucceeds(env: Env, r: nat, types: seq<IdlType>, values: seq<Value>)
    requires Acyclic(env) && TypesBelow(env, types, r) && |types| == |values|
    requires forall k :: 0 <= k < |types| ==> Encodable(env, types[k]) && HasType(env, types[k], values[k])
    ensures EncodeEach(env, r, types, values).Ok?
    decreases 2 * r + 1, types, 0
  {
    if types == [] {
    } else {
      EncodeSucceeds(env, types[0], values[0]);
      EncodeEachSucceeds(env, r, types[1..], values[1..]);
    }
  }

  /** The encoding of a field list depends on those fields only. */
  lemma {:induction false} EncodeFieldsLocal(env: Env, r: nat, fields: seq<Field>, values: map<string, Value>,
                                             values': map<string, Value>)
    requires Acyclic(env) && FieldsBelow(env, fields, r)
    requires forall i :: 0 <= i < |fields| ==>
      fields[i].name in values && fields[i].name in values' && values[fields[i].name] == values'[fields[i].name]
    ensures EncodeFields(env, r, fields, values) == EncodeFields(env, r, fields, values')
  {
    if fields == [] {
    } else {
      EncodeFieldsLocal(env, r, fields[1..], values, values');
    }
  }

  // ---------------------------------------------------------------- round trip

  /**
   * Whatever surrounds it, the encoding of a value decodes to that value and leaves the cursor exactly behind it: the
   * encoding delimits itself.
   */
  lemma {:induction false} RoundTrip(env: Env, t: IdlType, v: Value, encoded: Bytes, bytes: Bytes, offset: nat)
    requires Acyclic(env) && Decodable(env, t) && Readable(env, t, v)
    requires Encode(env, t, v) == Ok(encoded) && At(bytes, offset, encoded)
    ensures Decode(env, t, bytes, offset) == Ok((v, offset + |encoded|))
    decreases 2 * TypeRank(env, t), t, 1
  {
    match t {
      case OptionOf(u) =>
        assert encoded[0] == bytes[offset];
        if v != Null {
          var payload := Encode(env, u, v).value;
          AtSplit(bytes, offset, [1], payload);
          RoundTrip(env, u, v, payload, bytes, offset + 1);
        }
      case VecOf(u) => VecRoundTrip(env, u, v.items, encoded, bytes, offset);
      case Defined(name) =>
        if env.defs[name].Struct? {
          StructRoundTrip(env, name, v, encoded, bytes, offset);
        } else {
          VariantRoundTrip(env, name, v, encoded, bytes, offset);
        }
      case _ => PrimitiveRoundTrip(t, v, encoded, bytes, offset);
    }
  }

  lemma PrimitiveRoundTrip(t: IdlType, v: Value, encoded: Bytes, bytes: Bytes, offset: nat)
    requires HasPrimitive(t, v) && (t.Bool? || t.Pubkey? || t.Str? || IntegerSize(t) > 0)
    requires EncodePrimitive(t, v) == Ok(encoded) && At(bytes, offset, encoded)
    ensures DecodePrimitive(t, bytes, offset) == (v, offset + |encoded|)
  {
    if t.Str? {
      AtSplit(bytes, offset, Encoded(|v.utf8|, 4), v.utf8);
      LengthRoundTrip(|v.utf8|, bytes, offset);
      AtIsSlice(bytes, offset + 4, v.utf8);
    } else if t.Bool? {
      assert encoded[0] == bytes[offset];
    } else {
      AtIsSlice(bytes, offset, encoded);
      if !t.Pubkey? {
        IntegerPrimitive(t, v, bytes, offset);
      }
    }
  }

  lemma IntegerPrimitive(t: IdlType, v: Value, bytes: Bytes, offset: nat)
    requires IntegerSize(t) > 0 && v.IntV? && InRange(v.i, IntegerSize(t), t.I64?)
    requires Sub(bytes, offset, IntegerSize(t)) == Encoded(v.i, IntegerSize(t))
    ensures DecodePrimitive(t, bytes, offset) == (v, offset + IntegerSize(t))
  {
    IntegerRoundTrip(v.i, IntegerSize(t), t.I64?);
  }

  lemma {:induction false} VecRoundTrip(env: Env, u: IdlType, items: seq<Value>, encoded: Bytes, bytes: Bytes,
                                        offset: nat)
    requires Acyclic(env) && Decodable(env, u) && |items| < Exp(256, 4) && AllReadable(env, u, items)
    requires Encode(env, VecOf(u), ListV(items)) == Ok(encoded) && At(bytes, offset, encoded)
    ensures Decode(env, VecOf(u), bytes, offset) == Ok((ListV(items), offset + |encoded|))
    decreases 2 * TypeRank(env, u), u, |items| + 3
  {
    var payload := EncodeAll(env, u, items).value;
    AtSplit(bytes, offset, Encoded(|items|, 4), payload);
    LengthRoundTrip(|items|, bytes, offset);
    AllRoundTrip(env, u, items, payload, bytes, offset + 4);
  }

  ghost predicate AllReadable(env: Env, t: IdlType, vs: seq<Value>)
    requires Acyclic(env)
  {
    forall i :: 0 <= i < |vs| ==> Readable(env, t, vs[i])
  }

  lemma {:induction false} AllRoundTrip(env: Env, t: IdlType, vs: seq<Value>, encoded: Bytes, bytes: Bytes, offset: nat)
    requires Acyclic(env) && Decodable(env, t) && AllReadable(env, t, vs)
    requires EncodeAll(env, t, vs) == Ok(encoded) && At(bytes, offset, encoded)
    ensures DecodeAll(env, t, bytes, offset, |vs|) == Ok((vs, offset + |encoded|))
    decreases 2 * TypeRank(env, t), t, |vs| + 2
  {
    if vs == [] {
      DecodeNone(env, t, bytes, offset);
    } else {
      var head, tail := EncodeAllParts(env, t, vs, encoded, bytes, offset);
      FirstReadable(env, t, vs);
      RoundTrip(env, t, vs[0], head, bytes, offset);
      AllRoundTrip(env, t, vs[1..], tail, bytes, offset + |head|);
      DecodeAllOk(env, t, bytes, offset, vs, vs[1..], offset + |head|, offset + |head| + |tail|);
    }
  }

  lemma FirstReadable(env: Env, t: IdlType, vs: seq<Value>)
    requires Acyclic(env) && vs != [] && AllReadable(env, t, vs)
    ensures Readable(env, t, vs[0]) && AllReadable(env, t, vs[1..])
  {
  }

  lemma EncodeAllParts(env: Env, t: IdlType, vs: seq<Value>, encoded: Bytes, bytes: Bytes, offset: nat)
    returns (head: Bytes, tail: Bytes)
    requires Acyclic(env) && vs != [] && EncodeAll(env, t, vs) == Ok(encoded)
    requires At(bytes, offset, encoded)
    ensures At(bytes, offset, head) && At(bytes, offset + |head|, tail) && |encoded| == |head| + |tail|
    ensures Encode(env, t, vs[0]) == Ok(head) && EncodeAll(env, t, vs[1..]) == Ok(tail)
  {
    head, tail := Encode(env, t, vs[0]).value, EncodeAll(env, t, vs[1..]).value;
    AtSplit(bytes, offset, head, tail);
  }

  lemma DecodeNone(env: Env, t: IdlType, bytes: Bytes, offset: nat)
    requires Acyclic(env)
    ensures DecodeAll(env, t, bytes, offset, 0) == Ok(([], offset))
  {
  }

  lemma DecodeAllOk(env: Env, t: IdlType, bytes: Bytes, offset: nat, vs: seq<Value>, rest: seq<Value>, next: nat,
                    end: nat)
    requires Acyclic(env) && vs != [] && rest == vs[1..]
    requires Decode(env, t, bytes, offset) == Ok((vs[0], next))
    requires DecodeAll(env, t, bytes, next, |rest|) == Ok((rest, end))
    ensures DecodeAll(env, t, bytes, offset, |vs|) == Ok((vs, end))
  {
    assert vs == [vs[0]] + rest;
  }

  lemma VariantRoundTrip(env: Env, name: string, v: Value, encoded: Bytes, bytes: Bytes, offset: nat)
    requires Acyclic(env) && name in env.defs && env.defs[name].Enum? && DecodableDef(env, name)
      && ReadableDef(env, name, v)
    requires EncodeDefined(env, name, v) == Ok(encoded) && At(bytes, offset, encoded)
    ensures DecodeDefined(env, name, bytes, offset) == Ok((v, offset + |encoded|))
  {
    var i := VariantEncoded(env, name, v);
    assert encoded[0] == bytes[offset];
  }

  /** A variant without payload is encoded as its index. */
  lemma VariantEncoded(env: Env, name: string, v: Value) returns (i: nat)
    requires Acyclic(env) && name in env.defs && env.defs[name].Enum? && DecodableDef(env, name)
      && ReadableDef(env, name, v)
    ensures var variants := env.defs[name].variants;
      i < |variants| && i < 256 && v == VariantV(variants[i].name, [])
    ensures EncodeDefined(env, name, v) == Ok([i])
  {
    var variants := env.defs[name].variants;
    i :| 0 <= i < |variants| && variants[i].name == v.name && |variants[i].payload| == |v.payload|;
    VariantFound(variants, i);
    PlainVariantEncoded(env, name, variants, i);
  }

  lemma PlainVariantEncoded(env: Env, name: string, variants: seq<Variant>, i: nat)
    requires Acyclic(env) && name in env.defs && env.defs[name] == Enum(variants) && i < |variants| && i < 256
    requires FindNormalized(variants, variants[i].name) == FindExact(variants, variants[i].name) == Some(i)
    requires variants[i].payload == []
    ensures EncodeDefined(env, name, VariantV(variants[i].name, [])) == Ok([i])
  {
    NoPayloadEncoded(env, env.rank[name], i, variants[i].payload);
  }

  lemma NoPayloadEncoded(env: Env, r: nat, i: nat, types: seq<IdlType>)
    requires Acyclic(env) && TypesBelow(env, types, r) && types == [] && i < 256
    ensures EncodeVariant(env, r, i, types, []) == Ok([i])
  {
    assert [i] + [] == [i];
  }

  lemma {:induction false} StructRoundTrip(env: Env, name: string, v: Value, encoded: Bytes, bytes: Bytes, offset: nat)
    requires Acyclic(env) && name in env.defs && env.defs[name].Struct? && DecodableDef(env, name)
      && ReadableDef(env, name, v)
    requires EncodeDefined(env, name, v) == Ok(encoded) && At(bytes, offset, encoded)
    ensures DecodeDefined(env, name, bytes, offset) == Ok((v, offset + |encoded|))
    decreases 2 * env.rank[name] + 1, env.defs[name].fields, 1
  {
    var fields := env.defs[name].fields;
    assert FieldsTyped(env, fields, v.fields);
    FieldsRoundTrip(env, env.rank[name], fields, v.fields, encoded, bytes, offset);
    RestrictAll(v.fields, fields);
  }

  /** Each field is decodable and the object has a value of its type for it. */
  ghost predicate FieldsTyped(env: Env, fields: seq<Field>, values: map<string, Value>)
    requires Acyclic(env)
  {
    forall i :: 0 <= i < |fields| ==>
      Decodable(env, fields[i].typ) && fields[i].name in values && Readable(env, fields[i].typ, values[fields[i].name])
  }

  /** The part of an object that belongs to some of its fields. */
  function Restrict(values: map<string, Value>, names: set<string>): map<string, Value>
  {
    map name | name in values && name in names :: values[name]
  }

  lemma RestrictAll(values: map<string, Value>, fields: seq<Field>)
    requires values.Keys == Names(fields)
    ensures Restrict(values, Names(fields)) == values
  {
  }

  lemma RestrictStep(values: map<string, Value>, fields: seq<Field>)
    requires fields != [] && DistinctNames(fields) && fields[0].name in values
    ensures Restrict(values, Names(fields))
         == map[fields[0].name := values[fields[0].name]] + Restrict(values, Names(fields[1..]))
  {
    assert Names(fields) == {fields[0].name} + Names(fields[1..]);
  }

  lemma {:induction false} FieldsRoundTrip(env: Env, r: nat, fields: seq<Field>, values: map<string, Value>,
                                           encoded: Bytes, bytes: Bytes, offset: nat)
    requires Acyclic(env) && FieldsBelow(env, fields, r) && DistinctNames(fields) && FieldsTyped(env, fields, values)
    requires EncodeFields(env, r, fields, values) == Ok(encoded) && At(bytes, offset, encoded)
    ensures DecodeFields(env, r, fields, bytes, offset) == Ok((Restrict(values, Names(fields)), offset + |encoded|))
    decreases 2 * r + 1, fields, 0
  {
    if fields == [] {
      assert Restrict(values, Names(fields)) == map[];
    } else {
      var head, tail := EncodeFieldsParts(env, r, fields, values, encoded, bytes, offset);
      FieldsTypedRest(env, fields, values);
      RoundTrip(env, fields[0].typ, values[fields[0].name], head, bytes, offset);
      FieldsRoundTrip(env, r, fields[1..], values, tail, bytes, offset + |head|);
      DecodeFieldsOk(env, r, fields, values, bytes, offset, offset + |head|, offset + |head| + |tail|);
    }
  }

  lemma EncodeFieldsParts(env: Env, r: nat, fields: seq<Field>, values: map<string, Value>, encoded: Bytes,
                          bytes: Bytes, offset: nat)
    returns (head: Bytes, tail: Bytes)
    requires Acyclic(env) && FieldsBelow(env, fields, r) && fields != []
    requires EncodeFields(env, r, fields, values) == Ok(encoded) && At(bytes, offset, encoded)
    ensures fields[0].name in values && Encode(env, fields[0].typ, values[fields[0].name]) == Ok(head)
    ensures FieldsBelow(env, fields[1..], r) && EncodeFields(env, r, fields[1..], values) == Ok(tail)
    ensures At(bytes, offset, head) && At(bytes, offset + |head|, tail) && |encoded| == |head| + |tail|
  {
    head, tail := Encode(env, fields[0].typ, values[fields[0].name]).value,
      EncodeFields(env, r, fields[1..], values).value;
    AtSplit(bytes, offset, head, tail);
  }

  lemma FieldsTypedRest(env: Env, fields: seq<Field>, values: map<string, Value>)
    requires Acyclic(env) && fields != [] && DistinctNames(fields) && FieldsTyped(env, fields, values)
    ensures Decodable(env, fields[0].typ) && fields[0].name in values
      && Readable(env, fields[0].typ, values[fields[0].name])
    ensures DistinctNames(fields[1..]) && FieldsTyped(env, fields[1..], values)
  {
  }

  lemma DecodeFieldsOk(env: Env, r: nat, fields: seq<Field>, values: map<string, Value>, bytes: Bytes, offset: nat,
                       next: nat, end: nat)
    requires Acyclic(env) && FieldsBelow(env, fields, r) && fields != [] && DistinctNames(fields)
      && fields[0].name in values
    requires Decode(env, fields[0].typ, bytes, offset) == Ok((values[fields[0].name], next))
    requires DecodeFields(env, r, fields[1..], bytes, next) == Ok((Restrict(values, Names(fields[1..])), end))
    ensures DecodeFields(env, r, fields, bytes, offset) == Ok((Restrict(values, Names(fields)), end))
  {
    DecodeFieldsStep(env, r, fields, bytes, offset, values[fields[0].name], next);
    RestrictStep(values, fields);
  }

  /** What can be read back is of the type. */
  lemma {:induction false} ReadableHasType(env: Env, t: IdlType, v: Value)
    requires Acyclic(env) && Readable(env, t, v)
    ensures HasType(env, t, v)
    decreases TypeRank(env, t), t, 1
  {
    match t {
      case OptionOf(u) =>
        if v != Null {
          ReadableHasType(env, u, v);
        }
      case VecOf(u) => AllReadableHaveType(env, u, v.items);
      case ArrayOf(u, _) => AllReadableHaveType(env, u, v.items);
      case Defined(name) =>
        if env.defs[name].Struct? {
          ReadableStructHasType(env, name, v);
        }
      case _ =>
    }
  }

  lemma {:induction false} AllReadableHaveType(env: Env, t: IdlType, vs: seq<Value>)
    requires Acyclic(env) && AllReadable(env, t, vs)
    ensures forall i :: 0 <= i < |vs| ==> HasType(env, t, vs[i])
    decreases TypeRank(env, t), t, 2
  {
    forall i | 0 <= i < |vs|
      ensures HasType(env, t, vs[i])
    {
      ReadableHasType(env, t, vs[i]);
    }
  }

  lemma {:induction false} ReadableStructHasType(env: Env, name: string, v: Value)
    requires Acyclic(env) && name in env.defs && env.defs[name].Struct? && ReadableDef(env, name, v)
    ensures HasDef(env, name, v)
    decreases TypeRank(env, Defined(name)), Defined(name), 0
  {
    var fields := env.defs[name].fields;
    forall i | 0 <= i < |fields|
      ensures HasType(env, fields[i].typ, v.fields[fields[i].name])
    {
      ReadableHasType(env, fields[i].typ, v.fields[fields[i].name]);
    }
  }

  // ---------------------------------------------------------------- exactly what survives

  /** A decoder's result is not this value. */
  predicate Lost<T(==)>(parsed: Parsed<T>, v: T)
  {
    parsed.Ok? ==> parsed.value.0 != v
  }

  /** Anything else of the type comes back as another value, or not at all. */
  lemma {:induction false} UnreadableIsLost(env: Env, t: IdlType, v: Value, encoded: Bytes, bytes: Bytes, offset: nat)
    requires Acyclic(env) && Decodable(env, t) && HasType(env, t, v) && !Readable(env, t, v)
    requires Encode(env, t, v) == Ok(encoded) && At(bytes, offset, encoded)
    ensures Lost(Decode(env, t, bytes, offset), v)
    decreases 2 * TypeRank(env, t), t, 1
  {
    match t {
      case OptionOf(u) =>
        assert encoded[0] == bytes[offset];
        if v != StrV([]) {
          var payload := Encode(env, u, v).value;
          AtSplit(bytes, offset, [1], payload);
          UnreadableIsLost(env, u, v, payload, bytes, offset + 1);
        }
      case VecOf(u) => UnreadableVecIsLost(env, u, v.items, encoded, bytes, offset);
      case Defined(name) =>
        if env.defs[name].Struct? {
          UnreadableStructIsLost(env, name, v, encoded, bytes, offset);
        } else {
          PayloadIsLost(env, name, v, bytes, offset);
        }
      case _ =>
    }
  }

  lemma PayloadIsLost(env: Env, name: string, v: Value, bytes: Bytes, offset: nat)
    requires Acyclic(env) && name in env.defs && env.defs[name].Enum? && HasDef(env, name, v)
      && !ReadableDef(env, name, v)
    ensures Lost(DecodeDefined(env, name, bytes, offset), v)
  {
    PlainIsReadable(env, name, v);
  }

  lemma PlainIsReadable(env: Env, name: string, v: Value)
    requires Acyclic(env) && name in env.defs && env.defs[name].Enum? && HasDef(env, name, v)
    ensures v.VariantV? && (v.payload == [] ==> ReadableDef(env, name, v))
  {
    var variants := env.defs[name].variants;
    var i :| 0 <= i < |variants| && variants[i].name == v.name && |variants[i].payload| == |v.payload|;
    if v.payload == [] {
      assert variants[i].payload == [];
    }
  }

  lemma {:induction false} UnreadableVecIsLost(env: Env, u: IdlType, items: seq<Value>, encoded: Bytes, bytes: Bytes,
                                               offset: nat)
    requires Acyclic(env) && Decodable(env, u) && |items| < Exp(256, 4) && AllHaveType(env, u, items)
      && !AllReadable(env, u, items)
    requires Encode(env, VecOf(u), ListV(items)) == Ok(encoded) && At(bytes, offset, encoded)
    ensures Lost(Decode(env, VecOf(u), bytes, offset), ListV(items))
    decreases 2 * TypeRank(env, u), u, |items| + 3
  {
    var payload := EncodeAll(env, u, items).value;
    AtSplit(bytes, offset, Encoded(|items|, 4), payload);
    LengthRoundTrip(|items|, bytes, offset);
    UnreadableItemsAreLost(env, u, items, payload, bytes, offset + 4);
  }

  ghost predicate AllHaveType(env: Env, t: IdlType, vs: seq<Value>)
    requires Acyclic(env)
  {
    forall i :: 0 <= i < |vs| ==> HasType(env, t, vs[i])
  }

  lemma {:induction false} UnreadableItemsAreLost(env: Env, t: IdlType, vs: seq<Value>, encoded: Bytes, bytes: Bytes,
                                                  offset: nat)
    requires Acyclic(env) && Decodable(env, t) && AllHaveType(env, t, vs) && !AllReadable(env, t, vs)
    requires EncodeAll(env, t, vs) == Ok(encoded) && At(bytes, offset, encoded)
    ensures Lost(DecodeAll(env, t, bytes, offset, |vs|), vs)
    decreases 2 * TypeRank(env, t), t, |vs| + 2
  {
    var head, tail := EncodeAllParts(env, t, vs, encoded, bytes, offset);
    if Readable(env, t, vs[0]) {
      RoundTrip(env, t, vs[0], head, bytes, offset);
      AllReadableFromParts(env, t, vs);
      UnreadableItemsAreLost(env, t, vs[1..], tail, bytes, offset + |head|);
      LostTail(env, t, vs, bytes, offset, offset + |head|);
    } else {
      UnreadableIsLost(env, t, vs[0], head, bytes, offset);
      LostHead(env, t, vs, bytes, offset);
    }
  }

  lemma AllReadableFromParts(env: Env, t: IdlType, vs: seq<Value>)
    requires Acyclic(env) && vs != [] && Readable(env, t, vs[0])
    ensures AllReadable(env, t, vs) <==> AllReadable(env, t, vs[1..])
    ensures AllHaveType(env, t, vs) ==> AllHaveType(env, t, vs[1..])
  {
    forall i | 1 <= i < |vs|
      ensures vs[i] == vs[1..][i - 1]
    {
    }
  }

  lemma LostTail(env: Env, t: IdlType, vs: seq<Value>, bytes: Bytes, offset: nat, next: nat)
    requires Acyclic(env) && vs != [] && Decode(env, t, bytes, offset) == Ok((vs[0], next))
    requires Lost(DecodeAll(env, t, bytes, next, |vs| - 1), vs[1..])
    ensures Lost(DecodeAll(env, t, bytes, offset, |vs|), vs)
  {
    var all := DecodeAll(env, t, bytes, offset, |vs|);
    if all.Ok? {
      assert all.value.0[1..] == DecodeAll(env, t, bytes, next, |vs| - 1).value.0;
    }
  }

  lemma LostHead(env: Env, t: IdlType, vs: seq<Value>, bytes: Bytes, offset: nat)
    requires Acyclic(env) && vs != [] && Lost(Decode(env, t, bytes, offset), vs[0])
    ensures Lost(DecodeAll(env, t, bytes, offset, |vs|), vs)
  {
    var all := DecodeAll(env, t, bytes, offset, |vs|);
    if all.Ok? {
      assert all.value.0[0] == Decode(env, t, bytes, offset).value.0;
    }
  }

  lemma {:induction false} UnreadableStructIsLost(env: Env, name: string, v: Value, encoded: Bytes, bytes: Bytes,
                                                  offset: nat)
    requires Acyclic(env) && name in env.defs && env.defs[name].Struct? && DecodableDef(env, name)
    requires HasDef(env, name, v) && !ReadableDef(env, name, v)
    requires EncodeDefined(env, name, v) == Ok(encoded) && At(bytes, offset, encoded)
    ensures Lost(DecodeDefined(env, name, bytes, offset), v)
    decreases 2 * env.rank[name] + 1, env.defs[name].fields, 1
  {
    var fields := env.defs[name].fields;
    UnreadableFieldIsLost(env, env.rank[name], fields, v.fields, encoded, bytes, offset);
    RestrictAll(v.fields, fields);
  }

  /** Each field is decodable and the object has some value of its type for it. */
  ghost predicate FieldsHaveType(env: Env, fields: seq<Field>, values: map<string, Value>)
    requires Acyclic(env)
  {
    forall i :: 0 <= i < |fields| ==>
      Decodable(env, fields[i].typ) && fields[i].name in values && HasType(env, fields[i].typ, values[fields[i].name])
  }

  lemma {:induction false} UnreadableFieldIsLost(env: Env, r: nat, fields: seq<Field>, values: map<string, Value>,
                                                 encoded: Bytes, bytes: Bytes, offset: nat)
    requires Acyclic(env) && FieldsBelow(env, fields, r) && DistinctNames(fields)
    requires FieldsHaveType(env, fields, values) && !FieldsTyped(env, fields, values)
    requires EncodeFields(env, r, fields, values) == Ok(encoded) && At(bytes, offset, encoded)
    ensures Lost(DecodeFields(env, r, fields, bytes, offset), Restrict(values, Names(fields)))
    decreases 2 * r + 1, fields, 0
  {
    var first, rest := fields[0], fields[1..];
    var v := values[first.name];
    var head, tail := EncodeFieldsParts(env, r, fields, values, encoded, bytes, offset);
    if Readable(env, first.typ, v) {
      RoundTrip(env, first.typ, v, head, bytes, offset);
      FieldsTypedFromParts(env, fields, values);
      UnreadableFieldIsLost(env, r, rest, values, tail, bytes, offset + |head|);
      LostLaterField(env, r, fields, values, bytes, offset, v, offset + |head|);
    } else {
      UnreadableIsLost(env, first.typ, v, head, bytes, offset);
      LostFirstField(env, r, fields, values, bytes, offset);
    }
  }

  lemma FieldsTypedFromParts(env: Env, fields: seq<Field>, values: map<string, Value>)
    requires Acyclic(env) && fields != [] && FieldsHaveType(env, fields, values)
    requires Readable(env, fields[0].typ, values[fields[0].name])
    ensures FieldsTyped(env, fields, values) <==> FieldsTyped(env, fields[1..], values)
    ensures FieldsHaveType(env, fields[1..], values)
  {
    forall i | 1 <= i < |fields|
      ensures fields[i] == fields[1..][i - 1]
    {
    }
  }

  lemma LostLaterField(env: Env, r: nat, fields: seq<Field>, values: map<string, Value>, bytes: Bytes, offset: nat,
                       v: Value, next: nat)
    requires Acyclic(env) && FieldsBelow(env, fields, r) && fields != [] && DistinctNames(fields)
      && fields[0].name in values
    requires Decode(env, fields[0].typ, bytes, offset) == Ok((v, next))
    requires Lost(DecodeFields(env, r, fields[1..], bytes, next), Restrict(values, Names(fields[1..])))
    ensures Lost(DecodeFields(env, r, fields, bytes, offset), Restrict(values, Names(fields)))
  {
    var name, later, rest := fields[0].name, DecodeFields(env, r, fields[1..], bytes, next),
      Restrict(values, Names(fields[1..]));
    DecodeFieldsStep(env, r, fields, bytes, offset, v, next);
    RestrictStep(values, fields);
    FirstNameNotLater(fields);
    ExtendLost(name, v, values[name], later, rest);
  }

  lemma DecodeFieldsStep(env: Env, r: nat, fields: seq<Field>, bytes: Bytes, offset: nat, v: Value, next: nat)
    requires Acyclic(env) && FieldsBelow(env, fields, r) && fields != []
    requires Decode(env, fields[0].typ, bytes, offset) == Ok((v, next))
    ensures DecodeFields(env, r, fields, bytes, offset)
         == Extend(map[fields[0].name := v], DecodeFields(env, r, fields[1..], bytes, next))
  {
  }

  lemma FirstNameNotLater(fields: seq<Field>)
    requires fields != [] && DistinctNames(fields)
    ensures fields[0].name !in Names(fields[1..])
  {
  }

  lemma ExtendLost(name: string, v: Value, w: Value, later: Parsed<map<string, Value>>, rest: map<string, Value>)
    requires Lost(later, rest) && name !in rest && (later.Ok? ==> name !in later.value.0)
    ensures Lost(Extend(map[name := v], later), map[name := w] + rest)
  {
    if later.Ok? {
      TailsAgree(name, v, w, later.value.0, rest);
    }
  }

  /** Objects that agree after a new key is added to both agreed before. */
  lemma TailsAgree(name: string, v: Value, w: Value, a: map<string, Value>, b: map<string, Value>)
    requires name !in a && name !in b
    ensures map[name := v] + a == map[name := w] + b ==> a == b
  {
    assert a == (map[name := v] + a) - {name};
    assert b == (map[name := w] + b) - {name};
  }

  lemma LostFirstField(env: Env, r: nat, fields: seq<Field>, values: map<string, Value>, bytes: Bytes, offset: nat)
    requires Acyclic(env) && FieldsBelow(env, fields, r) && fields != [] && DistinctNames(fields)
      && fields[0].name in values
    requires Lost(Decode(env, fields[0].typ, bytes, offset), values[fields[0].name])
    ensures Lost(DecodeFields(env, r, fields, bytes, offset), Restrict(values, Names(fields)))
  {
    var all := DecodeFields(env, r, fields, bytes, offset);
    if all.Ok? {
      assert all.value.0[fields[0].name] == Decode(env, fields[0].typ, bytes, offset).value.0;
      assert fields[0].name in Names(fields);
    }
  }

  /**
   * Of all the values of a decodable type, exactly those without an empty string in an option and without an enum
   * payload come back, and then with the cursor behind them.
   */
  lemma RoundTripIffReadable(env: Env, t: IdlType, v: Value, encoded: Bytes, bytes: Bytes, offset: nat)
    requires Acyclic(env) && Decodable(env, t) && HasType(env, t, v)
    requires Encode(env, t, v) == Ok(encoded) && At(bytes, offset, encoded)
    ensures Decode(env, t, bytes, offset) == Ok((v, offset + |encoded|)) <==> Readable(env, t, v)
  {
    if Readable(env, t, v) {
      RoundTrip(env, t, v, encoded, bytes, offset);
    } else {
      UnreadableIsLost(env, t, v, encoded, bytes, offset);
    }
  }

  /** Encode then decode, between any prefix and any suffix. */
  lemma DecodeInvertsEncode(env: Env, t: IdlType, v: Value, prefix: Bytes, suffix: Bytes)
    requires Acyclic(env) && Decodable(env, t) && Readable(env, t, v)
    ensures Encode(env, t, v).Ok?
    ensures Decode(env, t, prefix + Encode(env, t, v).value + suffix, |prefix|)
      == Ok((v, |prefix| + |Encode(env, t, v).value|))
  {
    DecodableIsEncodable(env, t);
    ReadableHasType(env, t, v);
    EncodeSucceeds(env, t, v);
    var encoded := Encode(env, t, v).value;
    RoundTrip(env, t, v, encoded, prefix + encoded + suffix, |prefix|);
  }

  /** No encoding is a proper prefix of another, so concatenated encodings can be read back in one way only. */
  lemma EncodingsPrefixFree(env: Env, t: IdlType, v: Value, w: Value, x: Bytes, y: Bytes)
    requires Acyclic(env) && Decodable(env, t) && Readable(env, t, v) && Readable(env, t, w)
    requires Encode(env, t, v).Ok? && Encode(env, t, w).Ok?
      && Encode(env, t, v).value + x == Encode(env, t, w).value + y
    ensures v == w && x == y
  {
    var ev, ew := Encode(env, t, v).value, Encode(env, t, w).value;
    RoundTrip(env, t, v, ev, ev + x, 0);
    RoundTrip(env, t, w, ew, ew + y, 0);
    assert x == (ev + x)[|ev|..] && y == (ew + y)[|ew|..];
  }

  /** An argument list: consecutive encodings of values of the given types. */
  lemma {:induction false} ArgumentsUnambiguous(env: Env, r: nat, types: seq<IdlType>, vs: seq<Value>,
                                                ws: seq<Value>, x: Bytes, y: Bytes)
    requires Acyclic(env) && TypesBelow(env, types, r) && |types| == |vs| == |ws|
    requires forall k :: 0 <= k < |types| ==>
      Decodable(env, types[k]) && Readable(env, types[k], vs[k]) && Readable(env, types[k], ws[k])
    requires EncodeEach(env, r, types, vs).Ok? && EncodeEach(env, r, types, ws).Ok?
    requires EncodeEach(env, r, types, vs).value + x == EncodeEach(env, r, types, ws).value + y
    ensures vs == ws && x == y
  {
    if types == [] {
      assert [] + x == x && [] + y == y;
    } else {
      var a, b := Encode(env, types[0], vs[0]).value, Encode(env, types[0], ws[0]).value;
      var a', b' := EncodeEach(env, r, types[1..], vs[1..]).value, EncodeEach(env, r, types[1..], ws[1..]).value;
      assert a + (a' + x) == (a + a') + x && b + (b' + y) == (b + b') + y;
      EncodingsPrefixFree(env, types[0], vs[0], ws[0], a' + x, b' + y);
      ArgumentsUnambiguous(env, r, types[1..], vs[1..], ws[1..], x, y);
      assert vs == [vs[0]] + vs[1..] && ws == [ws[0]] + ws[1..];
    }
  }

  // ---------------------------------------------------------------- return data

  datatype Candidate = Candidate(offset: nat, outcome: Result<(Value, nat), CodecError>)

  function CandidateAt(env: Env, t: IdlType, bytes: Bytes, offset: nat): Candidate
    requires Acyclic(env)
  {
    Candidate(offset,
              match Decode(env, t, bytes, offset)
              case Err(e) => Err(e)
              case Ok((v, next)) => Ok((v, next - offset)))
  }

  /** `decodeReturnData`: the readings with and without an 8-byte discriminator, where the buffer reaches that far. */
  function ReturnCandidates(env: Env, t: IdlType, bytes: Bytes): seq<Candidate>
    requires Acyclic(env)
  {
    (if 0 < |bytes| then [CandidateAt(env, t, bytes, 0)] else [])
    + if 8 < |bytes| then [CandidateAt(env, t, bytes, 8)] else []
  }

  lemma CandidateReads(env: Env, t: IdlType, v: Value, prefix: Bytes, payload: Bytes)
    requires Acyclic(env) && Decodable(env, t) && Readable(env, t, v) && Encode(env, t, v) == Ok(payload)
    ensures CandidateAt(env, t, prefix + payload, |prefix|) == Candidate(|prefix|, Ok((v, |payload|)))
  {
    RoundTrip(env, t, v, payload, prefix + payload, |prefix|);
  }

  /** The first candidate reads a bare payload whole; the last reads one behind a discriminator whole. */
  lemma ReturnDataRead(env: Env, t: IdlType, v: Value, discriminator: Bytes)
    requires Acyclic(env) && Decodable(env, t) && Readable(env, t, v) && |discriminator| == 8
    ensures Encode(env, t, v).Ok?
    ensures var payload := Encode(env, t, v).value;
      payload != [] ==>
        && |ReturnCandidates(env, t, payload)| == (if |payload| <= 8 then 1 else 2)
        && ReturnCandidates(env, t, payload)[0] == Candidate(0, Ok((v, |payload|)))
        && |ReturnCandidates(env, t, discriminator + payload)| == 2
        && ReturnCandidates(env, t, discriminator + payload)[1] == Candidate(8, Ok((v, |payload|)))
  {
    DecodableIsEncodable(env, t);
    ReadableHasType(env, t, v);
    EncodeSucceeds(env, t, v);
    var payload := Encode(env, t, v).value;
    CandidateReads(env, t, v, [], payload);
    CandidateReads(env, t, v, discriminator, payload);
    assert [] + payload == payload;
  }

  // ---------------------------------------------------------------- options and enums on their own

  /** In an option of a readable value, exactly the empty string is lost: it is written, and so read back, as absent. */
  lemma OptionReadBack(env: Env, u: IdlType, v: Value, encoded: Bytes, bytes: Bytes, offset: nat)
    requires Acyclic(env) && Decodable(env, u) && (v == Null || v == StrV([]) || Readable(env, u, v))
    requires Encode(env, OptionOf(u), v) == Ok(encoded) && At(bytes, offset, encoded)
    ensures Decode(env, OptionOf(u), bytes, offset) == Ok((v, offset + |encoded|)) <==> v != StrV([])
    ensures v == StrV([]) ==> Decode(env, OptionOf(u), bytes, offset) == Ok((Null, offset + |encoded|))
  {
    if v == StrV([]) {
      assert encoded[0] == bytes[offset];
    } else {
      RoundTrip(env, OptionOf(u), v, encoded, bytes, offset);
    }
  }

  /**
   * Whatever an enum's variants and their names, an encoded value comes back exactly when it has no payload and its
   * name is that of the variant its normalised name resolves to, counted modulo 256.
   */
  lemma EnumReadBack(env: Env, name: string, v: Value, encoded: Bytes, bytes: Bytes, offset: nat)
    requires Acyclic(env) && name in env.defs && env.defs[name].Enum?
    requires Encode(env, Defined(name), v) == Ok(encoded) && At(bytes, offset, encoded)
    ensures v.VariantV? && FindNormalized(env.defs[name].variants, v.name).Some?
    ensures var variants := env.defs[name].variants; var found := FindNormalized(variants, v.name).value;
      && Decode(env, Defined(name), bytes, offset) == Ok((VariantV(variants[found % 256].name, []), offset + 1))
      && (Decode(env, Defined(name), bytes, offset) == Ok((v, offset + |encoded|))
          <==> v.payload == [] && v.name == variants[found % 256].name)
  {
    ReadBackOfResolved(env, name, v, encoded, bytes, offset, FindNormalized(env.defs[name].variants, v.name).value);
  }

  lemma ReadBackOfResolved(env: Env, name: string, v: Value, encoded: Bytes, bytes: Bytes, offset: nat, found: nat)
    requires Acyclic(env) && name in env.defs && env.defs[name].Enum?
    requires v.VariantV? && FindNormalized(env.defs[name].variants, v.name) == Some(found)
    requires Encode(env, Defined(name), v) == Ok(encoded) && At(bytes, offset, encoded)
    ensures found < |env.defs[name].variants|
    ensures Decode(env, Defined(name), bytes, offset)
      == Ok((VariantV(env.defs[name].variants[found % 256].name, []), offset + 1))
    ensures Decode(env, Defined(name), bytes, offset) == Ok((v, offset + |encoded|))
       <==> v.payload == [] && v.name == env.defs[name].variants[found % 256].name
  {
    var variants := env.defs[name].variants;
    ResolvedIsFirst(variants, v.name, found);
    assert EncodeDefined(env, name, v) == EncodeVariant(env, env.rank[name], found, variants[found].payload, v.payload);
    IndexFirst(env, env.rank[name], found, variants[found].payload, v.payload, encoded);
    assert encoded[0] == bytes[offset];
    assert Decode(env, Defined(name), bytes, offset) == DecodeDefined(env, name, bytes, offset);
  }

  /** The variant a normalised name resolves to is the first of its exact name too. */
  lemma ResolvedIsFirst(variants: seq<Variant>, name: string, i: nat)
    requires FindNormalized(variants, name) == Some(i)
    ensures FindExact(variants, variants[i].name) == Some(i)
  {
  }

  lemma IndexFirst(env: Env, r: nat, index: nat, types: seq<IdlType>, values: seq<Value>, encoded: Bytes)
    requires Acyclic(env) && TypesBelow(env, types, r) && EncodeVariant(env, r, index, types, values) == Ok(encoded)
    ensures encoded != [] && encoded[0] == index % 256 && (values == [] ==> |encoded| == 1)
  {
    if values == [] {
      assert types == [];
    }
  }

  /** When the normalised variant names are distinct, a value of the enum comes back exactly when it has no payload. */
  lemma PlainVariantReadBack(env: Env, name: string, v: Value, encoded: Bytes, bytes: Bytes, offset: nat)
    requires Acyclic(env) && name in env.defs && env.defs[name].Enum? && EncodableDef(env, name) && HasDef(env, name, v)
    requires Encode(env, Defined(name), v) == Ok(encoded) && At(bytes, offset, encoded)
    ensures Decode(env, Defined(name), bytes, offset) == Ok((v, offset + |encoded|)) <==> v.payload == []
  {
    var i := ResolvedVariant(env, name, v);
    ReadBackInPlace(env, name, v, encoded, bytes, offset, i);
  }

  lemma ReadBackInPlace(env: Env, name: string, v: Value, encoded: Bytes, bytes: Bytes, offset: nat, i: nat)
    requires Acyclic(env) && name in env.defs && env.defs[name].Enum? && i < 256
    requires v.VariantV? && FindNormalized(env.defs[name].variants, v.name) == Some(i)
      && env.defs[name].variants[i].name == v.name
    requires Encode(env, Defined(name), v) == Ok(encoded) && At(bytes, offset, encoded)
    ensures Decode(env, Defined(name), bytes, offset) == Ok((v, offset + |encoded|)) <==> v.payload == []
  {
    assert i % 256 == i;
    ReadBackOfResolved(env, name, v, encoded, bytes, offset, i);
  }

  lemma ResolvedVariant(env: Env, name: string, v: Value) returns (i: nat)
    requires Acyclic(env) && name in env.defs && env.defs[name].Enum? && EncodableDef(env, name) && HasDef(env, name, v)
    ensures var variants := env.defs[name].variants;
      i < |variants| && i < 256 && variants[i].name == v.name && FindNormalized(variants, v.name) == Some(i)
  {
    var variants := env.defs[name].variants;
    i :| 0 <= i < |variants| && variants[i].name == v.name;
    VariantFound(variants, i);
  }
}
