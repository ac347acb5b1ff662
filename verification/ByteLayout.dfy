/** Parts of a byte buffer at given offsets: reading them, and overwriting them. */
module ByteLayout {
  import opened Common
  import opened IntegerCodec

  type Key = k: Bytes | |k| == 32 witness seq(32, _ => 0)

  /** `bytes` continues with `part` at `offset`. */
  predicate At(bytes: Bytes, offset: nat, part: Bytes)
  {
    offset + |part| <= |bytes| && forall i :: 0 <= i < |part| ==> part[i] == bytes[offset + i]
  }

  lemma AtIsSlice(bytes: Bytes, offset: nat, part: Bytes)
    ensures At(bytes, offset, part) <==> offset + |part| <= |bytes| && bytes[offset..offset + |part|] == part
  {
  }

  lemma AtSplit(bytes: Bytes, offset: nat, a: Bytes, b: Bytes)
    requires At(bytes, offset, a + b)
    ensures At(bytes, offset, a) && At(bytes, offset + |a|, b)
  {
    assert forall i :: 0 <= i < |a| ==> a[i] == (a + b)[i];
    assert forall i :: 0 <= i < |b| ==> b[i] == (a + b)[|a| + i];
  }

  lemma AtWhole(head: Bytes, tail: Bytes)
    ensures At(head + tail, 0, head)
  {
  }

  lemma AtShift(head: Bytes, tail: Bytes, offset: nat, part: Bytes)
    requires At(tail, offset, part)
    ensures At(head + tail, |head| + offset, part)
  {
    forall k | 0 <= k < |part|
      ensures part[k] == (head + tail)[|head| + offset + k]
    {
      assert (head + tail)[|head| + (offset + k)] == tail[offset + k];
    }
  }

  /** The 32 bytes of a key at `offset`. */
  function PublicKeyAt(bytes: Bytes, offset: nat): Key
    requires offset + 32 <= |bytes|
  {
    bytes[offset..offset + 32]
  }

  /** Overwrites `part` into `bytes` at `offset`. */
  function Overwrite(bytes: Bytes, offset: nat, part: Bytes): (r: Bytes)
    requires offset + |part| <= |bytes|
    ensures |r| == |bytes|
  {
    bytes[..offset] + part + bytes[offset + |part|..]
  }

  /** Those bytes change and no others. */
  lemma OverwriteChanges(bytes: Bytes, offset: nat, part: Bytes)
    requires offset + |part| <= |bytes|
    ensures At(Overwrite(bytes, offset, part), offset, part)
    ensures forall k :: 0 <= k < |bytes| && !(offset <= k < offset + |part|) ==>
      Overwrite(bytes, offset, part)[k] == bytes[k]
  {
  }

  lemma OverwriteHead(head: Bytes, tail: Bytes, part: Bytes)
    requires |part| == |head|
    ensures Overwrite(head + tail, 0, part) == part + tail
  {
  }

  lemma OverwriteTail(head: Bytes, tail: Bytes, offset: nat, part: Bytes)
    requires offset + |part| <= |tail|
    ensures Overwrite(head + tail, |head| + offset, part) == head + Overwrite(tail, offset, part)
  {
    assert (head + tail)[..|head| + offset] == head + tail[..offset];
    assert (head + tail)[|head| + offset + |part|..] == tail[offset + |part|..];
  }
}
