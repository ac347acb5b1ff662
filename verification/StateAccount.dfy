/**
 * The program's `State` account: its Borsh layout (programs/onreapp/src/state.rs) against the fixed offsets read and
 * patched by the UI (scripts/ui/src/account-decoders.ts, scripts/ui/src/main.ts).
 */
module StateAccount {
  import opened ByteLayout
  import opened Common
  import opened IntegerCodec
  import opened IdlCodec

  // ---------------------------------------------------------------- fixed-size fields

  /** Encoded length of the types whose length does not depend on the value. */
  function FixedSize(t: IdlType): Option<nat>
  {
    match t
    case Bool => Some(1)
    case Pubkey => Some(32)
    case ArrayOf(u, length) => (match FixedSize(u) case None => None case Some(k) => Some(ArraySize(length, k)))
    case Str => None
    case OptionOf(_) => None
    case VecOf(_) => None
    case Defined(_) => None
    case _ => Some(IntegerSize(t))
  }

  function ArraySize(length: nat, size: nat): nat
  {
    MulMonotone(0, length, 0, size);
    length * size
  }

  lemma ArraySizeStep(length: nat, size: nat)
    requires length > 0
    ensures ArraySize(length, size) == size + ArraySize(length - 1, size)
  {
  }

  lemma {:induction false} EncodedFixedSize(env: Env, t: IdlType, v: Value)
    requires Acyclic(env) && FixedSize(t).Some? && Encode(env, t, v).Ok?
    ensures |Encode(env, t, v).value| == FixedSize(t).value
    decreases t, 0
  {
    if t.ArrayOf? {
      EncodedAllFixedSize(env, t.inner, v.items);
    }
  }

  lemma {:induction false} EncodedAllFixedSize(env: Env, t: IdlType, vs: seq<Value>)
    requires Acyclic(env) && FixedSize(t).Some? && EncodeAll(env, t, vs).Ok?
    ensures |EncodeAll(env, t, vs).value| == ArraySize(|vs|, FixedSize(t).value)
    decreases t, |vs| + 1
  {
    if vs == [] {
    } else {
      EncodedFixedSize(env, t, vs[0]);
      EncodedAllFixedSize(env, t, vs[1..]);
      ArraySizeStep(|vs|, FixedSize(t).value);
    }
  }

  predicate AllFixed(fields: seq<Field>)
  {
    forall i :: 0 <= i < |fields| ==> FixedSize(fields[i].typ).Some?
  }

  /** Offset of field `i` from the start of the struct. */
  function FieldOffset(fields: seq<Field>, i: nat): nat
    requires AllFixed(fields) && i <= |fields|
  {
    if i == 0 then 0 else FieldOffset(fields, i - 1) + FixedSize(fields[i - 1].typ).value
  }

  lemma {:induction false} OffsetFromFront(fields: seq<Field>, i: nat)
    requires AllFixed(fields) && 0 < i <= |fields|
    ensures FieldOffset(fields, i) == FixedSize(fields[0].typ).value + FieldOffset(fields[1..], i - 1)
  {
    if i == 1 {
    } else {
      OffsetFromFront(fields, i - 1);
    }
  }

  /** What is known of an encoded struct of fixed-size fields. */
  ghost predicate EncodedStruct(env: Env, r: nat, fields: seq<Field>, values: map<string, Value>, encoded: Bytes)
  {
    && Acyclic(env) && FieldsBelow(env, fields, r) && AllFixed(fields) && DistinctNames(fields)
    && EncodeFields(env, r, fields, values) == Ok(encoded)
  }

  /** The encoding of a nonempty field list, in its two parts. */
  lemma FieldsParts(env: Env, r: nat, fields: seq<Field>, values: map<string, Value>, encoded: Bytes)
    returns (head: Bytes, tail: Bytes)
    requires EncodedStruct(env, r, fields, values, encoded) && fields != []
    ensures fields[0].name in values && Encode(env, fields[0].typ, values[fields[0].name]) == Ok(head)
    ensures EncodedStruct(env, r, fields[1..], values, tail) && encoded == head + tail
    ensures |head| == FixedSize(fields[0].typ).value
  {
    head, tail := Encode(env, fields[0].typ, values[fields[0].name]).value,
      EncodeFields(env, r, fields[1..], values).value;
    EncodedFixedSize(env, fields[0].typ, values[fields[0].name]);
  }

  /** In a struct of fixed-size fields, field `i` is always encoded at its own offset. */
  lemma {:induction false} FieldAt(env: Env, r: nat, fields: seq<Field>, values: map<string, Value>, encoded: Bytes,
                                   i: nat)
    returns (part: Bytes)
    requires EncodedStruct(env, r, fields, values, encoded) && i < |fields|
    ensures fields[i].name in values && Encode(env, fields[i].typ, values[fields[i].name]) == Ok(part)
    ensures At(encoded, FieldOffset(fields, i), part)
    decreases |fields|
  {
    var head, tail := FieldsParts(env, r, fields, values, encoded);
    if i == 0 {
      part := head;
      AtWhole(head, tail);
    } else {
      part := FieldAt(env, r, fields[1..], values, tail, i - 1);
      OffsetFromFront(fields, i);
      AtShift(head, tail, FieldOffset(fields[1..], i - 1), part);
    }
  }

  /** The encoding of a struct of fixed-size fields always has the same length. */
  lemma {:induction false} StructLength(env: Env, r: nat, fields: seq<Field>, values: map<string, Value>,
                                        encoded: Bytes)
    requires EncodedStruct(env, r, fields, values, encoded)
    ensures |encoded| == FieldOffset(fields, |fields|)
    decreases |fields|
  {
    if fields == [] {
    } else {
      var head, tail := FieldsParts(env, r, fields, values, encoded);
      StructLength(env, r, fields[1..], values, tail);
      OffsetFromFront(fields, |fields|);
    }
  }

  /** Changing the first field replaces the front of the encoding. */
  lemma HeadUpdate(env: Env, r: nat, fields: seq<Field>, values: map<string, Value>, tail: Bytes, v: Value, part: Bytes)
    requires Acyclic(env) && FieldsBelow(env, fields, r) && DistinctNames(fields) && fields != []
    requires EncodeFields(env, r, fields[1..], values) == Ok(tail) && Encode(env, fields[0].typ, v) == Ok(part)
    ensures EncodeFields(env, r, fields, values[fields[0].name := v]) == Ok(part + tail)
  {
    FieldsPresent(env, r, fields[1..], values);
    EncodeFieldsLocal(env, r, fields[1..], values, values[fields[0].name := v]);
  }

  /** Changing a later field leaves the front of the encoding alone. */
  lemma TailUpdate(env: Env, r: nat, fields: seq<Field>, values: map<string, Value>, head: Bytes, i: nat, v: Value,
                   tail': Bytes)
    requires Acyclic(env) && FieldsBelow(env, fields, r) && DistinctNames(fields) && 0 < i < |fields|
    requires fields[0].name in values && Encode(env, fields[0].typ, values[fields[0].name]) == Ok(head)
    requires EncodeFields(env, r, fields[1..], values[fields[i].name := v]) == Ok(tail')
    ensures EncodeFields(env, r, fields, values[fields[i].name := v]) == Ok(head + tail')
  {
    assert fields[0].name != fields[i].name;
  }

  /** Changing one fixed-size field overwrites its bytes and leaves every other byte alone. */
  lemma {:induction false} FieldUpdate(env: Env, r: nat, fields: seq<Field>, values: map<string, Value>, encoded: Bytes,
                                       i: nat, v: Value, part: Bytes)
    requires EncodedStruct(env, r, fields, values, encoded) && i < |fields| && Encode(env, fields[i].typ, v) == Ok(part)
    ensures FieldOffset(fields, i) + |part| <= |encoded|
    ensures EncodeFields(env, r, fields, values[fields[i].name := v])
      == Ok(Overwrite(encoded, FieldOffset(fields, i), part))
    decreases |fields|
  {
    var head, tail := FieldsParts(env, r, fields, values, encoded);
    if i == 0 {
      EncodedFixedSize(env, fields[0].typ, v);
      HeadUpdate(env, r, fields, values, tail, v, part);
      OverwriteHead(head, tail, part);
    } else {
      FieldUpdate(env, r, fields[1..], values, tail, i - 1, v, part);
      OffsetFromFront(fields, i);
      OverwriteTail(head, tail, FieldOffset(fields[1..], i - 1), part);
      TailUpdate(env, r, fields, values, head, i, v, Overwrite(tail, FieldOffset(fields[1..], i - 1), part));
    }
  }

  lemma {:induction false} FieldsPresent(env: Env, r: nat, fields: seq<Field>, values: map<string, Value>)
    requires Acyclic(env) && FieldsBelow(env, fields, r) && EncodeFields(env, r, fields, values).Ok?
    ensures forall i :: 0 <= i < |fields| ==> fields[i].name in values
  {
    if fields == [] {
    } else {
      FieldsPresent(env, r, fields[1..], values);
    }
  }

  // ---------------------------------------------------------------- the State struct

  const MAX_ADMINS := 20

  /** Field order and types of the struct. */
  function StateFields(): seq<Field>
  {
    [Field("boss", Pubkey), Field("proposed_boss", Pubkey), Field("is_killed", Bool), Field("onyc_mint", Pubkey),
     Field("admins", ArrayOf(Pubkey, MAX_ADMINS)), Field("approver1", Pubkey), Field("approver2", Pubkey),
     Field("bump", U8), Field("max_supply", U64), Field("worker", Pubkey), Field("max_mint_amount", U64),
     Field("main_offer", Pubkey), Field("reserved", ArrayOf(U8, 56))]
  }

  /** The IDL defines `State` as that struct; whatever else it defines does not matter. */
  ghost predicate DefinesState(env: Env)
  {
    Acyclic(env) && "State" in env.defs && env.defs["State"] == Struct(StateFields())
  }

  /** A state as an object: a value for each field, of its type. */
  ghost predicate IsState(env: Env, s: map<string, Value>)
    requires DefinesState(env)
  {
    HasType(env, Defined("State"), ObjV(s))
  }

  function EncodeState(env: Env, s: map<string, Value>): Result<Bytes, CodecError>
    requires Acyclic(env)
  {
    Encode(env, Defined("State"), ObjV(s))
  }

  /** Where the key fields lie, from the start of the struct. */
  ghost predicate LaidOut(fields: seq<Field>)
  {
    && |fields| == 13 && AllFixed(fields) && DistinctNames(fields)
    && fields[0] == Field("boss", Pubkey) && FieldOffset(fields, 0) == 0
    && fields[1] == Field("proposed_boss", Pubkey) && FieldOffset(fields, 1) == 32
    && fields[3] == Field("onyc_mint", Pubkey) && FieldOffset(fields, 3) == 65
    && fields[9] == Field("worker", Pubkey) && FieldOffset(fields, 9) == 810
    && fields[11] == Field("main_offer", Pubkey) && FieldOffset(fields, 11) == 850
    && FieldOffset(fields, 13) == 938
  }

  lemma StateLayout() returns (fields: seq<Field>)
    ensures fields == StateFields() && LaidOut(fields)
  {
    fields := StateFields();
    StateFieldsFixed();
    StateOffset(1);
    StateOffset(3);
    StateOffset(9);
    StateOffset(11);
    StateOffset(13);
  }

  const STATE_OFFSETS := [0, 32, 64, 65, 97, 737, 769, 801, 802, 810, 842, 850, 882, 938]

  /** The offset of every field, and the total. */
  lemma {:induction false} StateOffset(i: nat)
    requires i <= |StateFields()| == 13
    ensures AllFixed(StateFields()) && FieldOffset(StateFields(), i) == STATE_OFFSETS[i]
  {
    StateFieldsFixed();
    if i > 0 {
      StateOffset(i - 1);
      StateSize(i - 1);
    }
  }

  lemma StateSize(i: nat)
    requires i < |StateFields()| == 13
    ensures FixedSize(StateFields()[i].typ) == Some(STATE_OFFSETS[i + 1] - STATE_OFFSETS[i])
  {
  }

  lemma StateFieldsFixed()
    ensures AllFixed(StateFields()) && DistinctNames(StateFields())
  {
    forall i, j | 0 <= i < j < |StateFields()|
      ensures StateFields()[i].name != StateFields()[j].name
    {
      NameShape(i);
      NameShape(j);
    }
  }

  /** Length and last letter tell the field names apart. */
  lemma NameShape(i: nat)
    requires i < |StateFields()|
    ensures var name := StateFields()[i].name;
      name != [] && (|name|, name[|name| - 1]) ==
        [(4, 's'), (13, 's'), (9, 'd'), (9, 't'), (6, 's'), (9, '1'), (9, '2'), (4, 'p'), (10, 'y'), (6, 'r'),
         (15, 't'), (10, 'r'), (8, 'd')][i]
  {
  }

  /** A struct type whose values all are encoded, field by field. */
  lemma StructEncoded(env: Env, name: string, fields: seq<Field>, values: map<string, Value>) returns (encoded: Bytes)
    requires Acyclic(env) && name in env.defs && env.defs[name] == Struct(fields) && fields != []
    requires AllFixed(fields) && DistinctNames(fields) && HasType(env, Defined(name), ObjV(values))
    ensures Encode(env, Defined(name), ObjV(values)) == Ok(encoded)
    ensures EncodedStruct(env, env.rank[name], fields, values, encoded) && |encoded| == FieldOffset(fields, |fields|)
    ensures forall i :: 0 <= i < |fields| ==>
      fields[i].name in values && HasType(env, fields[i].typ, values[fields[i].name])
  {
    forall i | 0 <= i < |fields|
      ensures Encodable(env, fields[i].typ)
    {
      FixedIsEncodable(env, fields[i].typ);
    }
    assert HasDef(env, name, ObjV(values));
    EncodeFieldsSucceeds(env, env.rank[name], fields, values);
    encoded := EncodeFields(env, env.rank[name], fields, values).value;
    StructLength(env, env.rank[name], fields, values, encoded);
  }

  lemma {:induction false} FixedIsEncodable(env: Env, t: IdlType)
    requires Acyclic(env) && FixedSize(t).Some?
    ensures Encodable(env, t)
  {
    if t.ArrayOf? {
      FixedIsEncodable(env, t.inner);
    }
  }

  // ---------------------------------------------------------------- reading by offset

  const STATE_ACCOUNT_MIN_LENGTH := 890
  const BOSS := 8
  const PROPOSED_BOSS := 40
  const ONYC_MINT := 73
  const WORKER := 818
  const MAIN_OFFER := 858

  datatype StateInfo = StateInfo(boss: Key, proposedBoss: Key, onycMint: Key, worker: Key, mainOffer: Key)

  /** `decodeStateAccount`. */
  function DecodeStateAccount(data: Bytes): (r: Option<StateInfo>)
    ensures r.Some? <==> |data| >= 890
  {
    if |data| < STATE_ACCOUNT_MIN_LENGTH then None
    else Some(StateInfo(PublicKeyAt(data, BOSS), PublicKeyAt(data, PROPOSED_BOSS), PublicKeyAt(data, ONYC_MINT),
                        PublicKeyAt(data, WORKER), PublicKeyAt(data, MAIN_OFFER)))
  }

  /** A key field sits at its layout offset behind the discriminator. */
  lemma KeyOfStruct(env: Env, r: nat, fields: seq<Field>, values: map<string, Value>, encoded: Bytes, prefix: Bytes,
                    i: nat)
    requires EncodedStruct(env, r, fields, values, encoded) && i < |fields| && fields[i].typ == Pubkey
    ensures fields[i].name in values && values[fields[i].name].KeyV? && |values[fields[i].name].key| == 32
    ensures var offset := |prefix| + FieldOffset(fields, i);
      offset + 32 <= |prefix + encoded| && PublicKeyAt(prefix + encoded, offset) == values[fields[i].name].key
  {
    var key := FieldAt(env, r, fields, values, encoded, i);
    KeyEncoded(env, values[fields[i].name], key);
    KeyAt(prefix, encoded, FieldOffset(fields, i), key);
  }

  lemma KeyEncoded(env: Env, v: Value, key: Bytes)
    requires Acyclic(env) && Encode(env, Pubkey, v) == Ok(key)
    ensures v == KeyV(key) && |key| == 32
  {
  }

  lemma KeyAt(prefix: Bytes, encoded: Bytes, offset: nat, key: Bytes)
    requires At(encoded, offset, key) && |key| == 32
    ensures |prefix| + offset + 32 <= |prefix + encoded| && PublicKeyAt(prefix + encoded, |prefix| + offset) == key
  {
    AtShift(prefix, encoded, offset, key);
    AtIsSlice(prefix + encoded, |prefix| + offset, key);
  }

  /** The record read from an account is the object's key fields. */
  predicate Agrees(info: StateInfo, s: map<string, Value>)
  {
    && "boss" in s && s["boss"] == KeyV(info.boss)
    && "proposed_boss" in s && s["proposed_boss"] == KeyV(info.proposedBoss)
    && "onyc_mint" in s && s["onyc_mint"] == KeyV(info.onycMint)
    && "worker" in s && s["worker"] == KeyV(info.worker)
    && "main_offer" in s && s["main_offer"] == KeyV(info.mainOffer)
  }

  lemma KeysRead(env: Env, r: nat, fields: seq<Field>, s: map<string, Value>, encoded: Bytes, discriminator: Bytes)
    requires EncodedStruct(env, r, fields, s, encoded) && LaidOut(fields) && |discriminator| == 8
    ensures DecodeStateAccount(discriminator + encoded).Some?
    ensures Agrees(DecodeStateAccount(discriminator + encoded).value, s)
  {
    StructLength(env, r, fields, s, encoded);
    KeyOfStruct(env, r, fields, s, encoded, discriminator, 0);
    KeyOfStruct(env, r, fields, s, encoded, discriminator, 1);
    KeyOfStruct(env, r, fields, s, encoded, discriminator, 3);
    KeyOfStruct(env, r, fields, s, encoded, discriminator, 9);
    KeyOfStruct(env, r, fields, s, encoded, discriminator, 11);
  }

  /** The offset decoder reads back exactly the key fields that the generic codec wrote. */
  lemma OffsetsMatchLayout(env: Env, s: map<string, Value>, discriminator: Bytes)
    requires DefinesState(env) && IsState(env, s) && |discriminator| == 8
    ensures EncodeState(env, s).Ok?
    ensures DecodeStateAccount(discriminator + EncodeState(env, s).value).Some?
    ensures Agrees(DecodeStateAccount(discriminator + EncodeState(env, s).value).value, s)
  {
    var fields := StateLayout();
    var encoded := StructEncoded(env, "State", fields, s);
    KeysRead(env, env.rank["State"], fields, s, encoded, discriminator);
  }

  // ---------------------------------------------------------------- patching by offset

  function PatchKey(data: Bytes, offset: nat, key: Option<Key>): Bytes
    requires offset + 32 <= |data|
  {
    match key
    case None => data
    case Some(k) => Overwrite(data, offset, k)
  }

  function Patched(data: Bytes, boss: Option<Key>, worker: Option<Key>): Bytes
    requires |data| >= 890
  {
    PatchKey(PatchKey(data, BOSS, boss), WORKER, worker)
  }

  /** `patchStateAccountAuthorities`, on the copied account data; false stands for the length error. */
  method PatchStateAccount(data: array<u8>, boss: Option<Key>, worker: Option<Key>) returns (ok: bool)
    modifies data
    ensures ok <==> data.Length >= 890
    ensures data[..] == if ok then Patched(old(data[..]), boss, worker) else old(data[..])
  {
    if data.Length < STATE_ACCOUNT_MIN_LENGTH {
      return false;
    }
    if boss.Some? {
      SetBytes(data, BOSS, boss.value);
    }
    if worker.Some? {
      SetBytes(data, WORKER, worker.value);
    }
    return true;
  }

  /** `data.set(part, offset)`. */
  method SetBytes(data: array<u8>, offset: nat, part: Bytes)
    requires offset + |part| <= data.Length
    modifies data
    ensures data[..] == Overwrite(old(data[..]), offset, part)
  {
    for i := 0 to |part|
      invariant forall k :: 0 <= k < data.Length ==>
        data[k] == if offset <= k < offset + i then part[k - offset] else old(data[k])
    {
      data[offset + i] := part[i];
    }
  }

  /** The object with a key field replaced, if a key is given. */
  function WithKey(s: map<string, Value>, name: string, key: Option<Key>): map<string, Value>
  {
    match key
    case None => s
    case Some(k) => s[name := KeyV(k)]
  }

  /** Patching a key field of an encoded struct is replacing that field of the object. */
  lemma PatchOneKey(env: Env, r: nat, fields: seq<Field>, values: map<string, Value>, encoded: Bytes, prefix: Bytes,
                    i: nat, key: Option<Key>)
    returns (encoded': Bytes)
    requires EncodedStruct(env, r, fields, values, encoded) && i < |fields| && fields[i].typ == Pubkey
    ensures EncodedStruct(env, r, fields, WithKey(values, fields[i].name, key), encoded') && |encoded'| == |encoded|
    ensures |prefix| + FieldOffset(fields, i) + 32 <= |prefix + encoded|
    ensures PatchKey(prefix + encoded, |prefix| + FieldOffset(fields, i), key) == prefix + encoded'
  {
    var _ := FieldAt(env, r, fields, values, encoded, i);
    match key {
      case None =>
        encoded' := encoded;
      case Some(k) =>
        FieldUpdate(env, r, fields, values, encoded, i, KeyV(k), k);
        encoded' := Overwrite(encoded, FieldOffset(fields, i), k);
        OverwriteTail(prefix, encoded, FieldOffset(fields, i), k);
    }
  }

  /** Patching two key fields of an account is replacing both fields of the object. */
  lemma PatchTwoKeys(env: Env, name: string, fields: seq<Field>, values: map<string, Value>, prefix: Bytes,
                     i: nat, first: Option<Key>, j: nat, second: Option<Key>)
    returns (encoded: Bytes, encoded': Bytes)
    requires Acyclic(env) && name in env.defs && env.defs[name] == Struct(fields) && i < |fields| && j < |fields|
    requires AllFixed(fields) && DistinctNames(fields) && HasType(env, Defined(name), ObjV(values))
    requires fields[i].typ == Pubkey && fields[j].typ == Pubkey
    ensures Encode(env, Defined(name), ObjV(values)) == Ok(encoded) && |encoded| == FieldOffset(fields, |fields|)
    ensures Encode(env, Defined(name), ObjV(WithKey(WithKey(values, fields[i].name, first), fields[j].name, second)))
      == Ok(encoded')
    ensures |prefix| + FieldOffset(fields, i) + 32 <= |prefix + encoded|
      && |prefix| + FieldOffset(fields, j) + 32 <= |prefix + encoded|
    ensures PatchKey(PatchKey(prefix + encoded, |prefix| + FieldOffset(fields, i), first),
                     |prefix| + FieldOffset(fields, j), second)
         == prefix + encoded'
  {
    var r := env.rank[name];
    encoded := StructEncoded(env, name, fields, values);
    var middle := PatchOneKey(env, r, fields, values, encoded, prefix, i, first);
    encoded' := PatchOneKey(env, r, fields, WithKey(values, fields[i].name, first), middle, prefix, j, second);
  }

  /** The patched account is exactly the account of the state with the new boss and worker: no other byte differs. */
  lemma PatchIsStateUpdate(env: Env, s: map<string, Value>, discriminator: Bytes, boss: Option<Key>,
                           worker: Option<Key>)
    requires DefinesState(env) && IsState(env, s) && |discriminator| == 8
    ensures EncodeState(env, s).Ok? && |EncodeState(env, s).value| == 938
    ensures var s' := WithKey(WithKey(s, "boss", boss), "worker", worker);
      EncodeState(env, s').Ok? &&
      Patched(discriminator + EncodeState(env, s).value, boss, worker) == discriminator + EncodeState(env, s').value
  {
    var fields := StateLayout();
    PatchLaidOut(env, fields, s, discriminator, boss, worker);
  }

  lemma PatchLaidOut(env: Env, fields: seq<Field>, s: map<string, Value>, discriminator: Bytes, boss: Option<Key>,
                     worker: Option<Key>)
    requires Acyclic(env) && "State" in env.defs && env.defs["State"] == Struct(fields) && LaidOut(fields)
    requires HasType(env, Defined("State"), ObjV(s)) && |discriminator| == 8
    ensures EncodeState(env, s).Ok? && |EncodeState(env, s).value| == 938
    ensures var s' := WithKey(WithKey(s, "boss", boss), "worker", worker);
      EncodeState(env, s').Ok? &&
      Patched(discriminator + EncodeState(env, s).value, boss, worker) == discriminator + EncodeState(env, s').value
  {
    var encoded, encoded' := PatchTwoKeys(env, "State", fields, s, discriminator, 0, boss, 9, worker);
  }
}
