/**
 * The Ed25519 instruction parser (programs/onreapp/src/utils/ed25519_parser.rs) and the approval check built on it
 * (programs/onreapp/src/utils/approver/approver_utils.rs).
 */
module Ed25519 {
  import opened ByteLayout
  import opened Common
  import opened IntegerCodec

  // ---------------------------------------------------------------- the header

  /** The seven little-endian 16-bit fields behind the signature count and the padding byte. */
  datatype Header = Header(signatureOffset: u16, signatureIndex: u16, keyOffset: u16, keyIndex: u16,
                           messageOffset: u16, messageSize: u16, messageIndex: u16)

  const HEADER_LENGTH := 16

  function HeaderBytes(padding: u8, h: Header): (bytes: Bytes)
    ensures |bytes| == HEADER_LENGTH
  {
    [1, padding] + Encoded(h.signatureOffset, 2) + Encoded(h.signatureIndex, 2) + Encoded(h.keyOffset, 2)
    + Encoded(h.keyIndex, 2) + Encoded(h.messageOffset, 2) + Encoded(h.messageSize, 2) + Encoded(h.messageIndex, 2)
  }

  /** `u16::from_le_bytes` at an offset. */
  function U16At(data: Bytes, offset: nat): u16
    requires offset + 2 <= |data|
  {
    ValueOfDigits(data[offset..offset + 2]);
    TwoBytes();
    FromLittleEndian(data[offset..offset + 2])
  }

  lemma TwoBytes()
    ensures Exp(256, 2) == 0x1_0000
  {
    assert Exp(256, 1) == 256;
  }

  lemma U16RoundTrip(data: Bytes, offset: nat, v: u16)
    requires offset + 2 <= |data|
    ensures U16At(data, offset) == v <==> data[offset..offset + 2] == Encoded(v, 2)
  {
    var bytes := data[offset..offset + 2];
    TwoBytes();
    IntegerRoundTrip(v, 2, false);
    BytesRoundTrip(bytes, false);
  }

  // ---------------------------------------------------------------- parse_ed25519_ix

  datatype Parsed = Parsed(sigCount: u8, pubkey: Key, message: Bytes)

  /** `parse_ed25519_ix`. */
  function Parse(data: Bytes): Option<Parsed>
  {
    if |data| < HEADER_LENGTH then None
    else if data[0] != 1 then None
    else if U16At(data, 4) != U16_MAX || U16At(data, 8) != U16_MAX || U16At(data, 14) != U16_MAX then None
    else if U16At(data, 2) + 64 > |data| then None
    else if U16At(data, 6) + 32 > |data| then None
    else if U16At(data, 10) + U16At(data, 12) > |data| then None
    else Some(Parsed(data[0], PublicKeyAt(data, U16At(data, 6)),
                     data[U16At(data, 10)..U16At(data, 10) + U16At(data, 12)]))
  }

  /**
   * The instruction names one signature, all of whose parts lie in this very instruction: there is room for a signature
   * where the header says, and the key and the message stand where it says.
   */
  predicate Describes(data: Bytes, padding: u8, h: Header, key: Key, message: Bytes)
  {
    && At(data, 0, HeaderBytes(padding, h))
    && h.signatureIndex == h.keyIndex == h.messageIndex == U16_MAX
    && h.signatureOffset + 64 <= |data|
    && At(data, h.keyOffset, key)
    && h.messageSize == |message| && At(data, h.messageOffset, message)
  }

  /** The fields stand in the header bytes at their documented places. */
  lemma HeaderParts(padding: u8, h: Header)
    ensures var bytes := HeaderBytes(padding, h);
      && bytes[0] == 1 && bytes[1] == padding
      && U16At(bytes, 2) == h.signatureOffset && U16At(bytes, 4) == h.signatureIndex
      && U16At(bytes, 6) == h.keyOffset && U16At(bytes, 8) == h.keyIndex
      && U16At(bytes, 10) == h.messageOffset && U16At(bytes, 12) == h.messageSize && U16At(bytes, 14) == h.messageIndex
  {
    var bytes := HeaderBytes(padding, h);
    U16RoundTrip(bytes, 2, h.signatureOffset);
    U16RoundTrip(bytes, 4, h.signatureIndex);
    U16RoundTrip(bytes, 6, h.keyOffset);
    U16RoundTrip(bytes, 8, h.keyIndex);
    U16RoundTrip(bytes, 10, h.messageOffset);
    U16RoundTrip(bytes, 12, h.messageSize);
    U16RoundTrip(bytes, 14, h.messageIndex);
  }

  /** The header that any 16 bytes are. */
  function HeaderOf(data: Bytes): Header
    requires |data| >= HEADER_LENGTH
  {
    Header(U16At(data, 2), U16At(data, 4), U16At(data, 6), U16At(data, 8), U16At(data, 10), U16At(data, 12),
           U16At(data, 14))
  }

  lemma HeaderOfBytes(data: Bytes)
    requires |data| >= HEADER_LENGTH && data[0] == 1
    ensures At(data, 0, HeaderBytes(data[1], HeaderOf(data)))
  {
    var h := HeaderOf(data);
    U16RoundTrip(data, 2, h.signatureOffset);
    U16RoundTrip(data, 4, h.signatureIndex);
    U16RoundTrip(data, 6, h.keyOffset);
    U16RoundTrip(data, 8, h.keyIndex);
    U16RoundTrip(data, 10, h.messageOffset);
    U16RoundTrip(data, 12, h.messageSize);
    U16RoundTrip(data, 14, h.messageIndex);
    assert HeaderBytes(data[1], h) == data[..16];
  }

  lemma SameField(data: Bytes, head: Bytes, offset: nat)
    requires At(data, 0, head) && offset + 2 <= |head|
    ensures U16At(data, offset) == U16At(head, offset)
  {
    assert data[offset..offset + 2] == head[offset..offset + 2];
  }

  lemma HeaderUnique(data: Bytes, padding: u8, h: Header)
    requires At(data, 0, HeaderBytes(padding, h))
    ensures data[0] == 1 && HeaderOf(data) == h
  {
    HeaderParts(padding, h);
    var bytes := HeaderBytes(padding, h);
    SameField(data, bytes, 2);
    SameField(data, bytes, 4);
    SameField(data, bytes, 6);
    SameField(data, bytes, 8);
    SameField(data, bytes, 10);
    SameField(data, bytes, 12);
    SameField(data, bytes, 14);
  }

  /** The parser accepts exactly the described instructions, with exactly the described key and message. */
  lemma ParseSoundAndComplete(data: Bytes, key: Key, message: Bytes)
    ensures Parse(data) == Some(Parsed(1, key, message))
      <==> exists padding, h :: Describes(data, padding, h, key, message)
    ensures Parse(data).Some? ==> Parse(data).value.sigCount == 1
  {
    if Parse(data) == Some(Parsed(1, key, message)) {
      HeaderOfBytes(data);
      AtIsSlice(data, HeaderOf(data).keyOffset, key);
      AtIsSlice(data, HeaderOf(data).messageOffset, message);
      assert Describes(data, data[1], HeaderOf(data), key, message);
    }
    if padding, h :| Describes(data, padding, h, key, message) {
      DescribedParses(data, padding, h, key, message);
    }
  }

  lemma DescribedParses(data: Bytes, padding: u8, h: Header, key: Key, message: Bytes)
    requires Describes(data, padding, h, key, message)
    ensures Parse(data) == Some(Parsed(1, key, message))
  {
    HeaderUnique(data, padding, h);
    AtIsSlice(data, h.keyOffset, key);
    AtIsSlice(data, h.messageOffset, message);
  }

  // ---------------------------------------------------------------- building

  predicate Disjoint(a: nat, m: nat, b: nat, n: nat)
  {
    a + m <= b || b + n <= a
  }

  /** The three parts lie behind the header, inside the buffer and apart from each other, in any order. */
  predicate Placed(h: Header, length: nat, messageSize: nat)
  {
    && HEADER_LENGTH <= h.signatureOffset && h.signatureOffset + 64 <= length
    && HEADER_LENGTH <= h.keyOffset && h.keyOffset + 32 <= length
    && HEADER_LENGTH <= h.messageOffset && h.messageOffset + messageSize <= length
    && Disjoint(h.signatureOffset, 64, h.keyOffset, 32)
    && Disjoint(h.signatureOffset, 64, h.messageOffset, messageSize)
    && Disjoint(h.keyOffset, 32, h.messageOffset, messageSize)
  }

  /** Header, message, key and signature written over a buffer. */
  function Build(buffer: Bytes, padding: u8, h: Header, signature: Bytes, key: Key, message: Bytes): Bytes
    requires |signature| == 64 && Placed(h, |buffer|, |message|)
  {
    var b1 := Overwrite(buffer, 0, HeaderBytes(padding, h));
    var b2 := Overwrite(b1, h.messageOffset, message);
    var b3 := Overwrite(b2, h.keyOffset, key);
    Overwrite(b3, h.signatureOffset, signature)
  }

  lemma OverwriteKeeps(bytes: Bytes, offset: nat, part: Bytes, other: nat, kept: Bytes)
    requires offset + |part| <= |bytes| && At(bytes, other, kept) && Disjoint(offset, |part|, other, |kept|)
    ensures At(Overwrite(bytes, offset, part), other, kept)
  {
    OverwriteChanges(bytes, offset, part);
  }

  /** Whatever the buffer held and wherever the parts are placed, the parser finds the key and the message. */
  lemma ParseInvertsBuild(buffer: Bytes, padding: u8, h: Header, signature: Bytes, key: Key, message: Bytes)
    requires |signature| == 64 && Placed(h, |buffer|, |message|)
    requires h.signatureIndex == h.keyIndex == h.messageIndex == U16_MAX && h.messageSize == |message|
    ensures Parse(Build(buffer, padding, h, signature, key, message)) == Some(Parsed(1, key, message))
    ensures At(Build(buffer, padding, h, signature, key, message), h.signatureOffset, signature)
  {
    var head := HeaderBytes(padding, h);
    var b1 := Overwrite(buffer, 0, head);
    var b2 := Overwrite(b1, h.messageOffset, message);
    var b3 := Overwrite(b2, h.keyOffset, key);
    var b4 := Overwrite(b3, h.signatureOffset, signature);
    OverwriteChanges(buffer, 0, head);
    OverwriteKeeps(b1, h.messageOffset, message, 0, head);
    OverwriteKeeps(b2, h.keyOffset, key, 0, head);
    OverwriteKeeps(b3, h.signatureOffset, signature, 0, head);
    OverwriteChanges(b1, h.messageOffset, message);
    OverwriteKeeps(b2, h.keyOffset, key, h.messageOffset, message);
    OverwriteKeeps(b3, h.signatureOffset, signature, h.messageOffset, message);
    OverwriteChanges(b2, h.keyOffset, key);
    OverwriteKeeps(b3, h.signatureOffset, signature, h.keyOffset, key);
    OverwriteChanges(b3, h.signatureOffset, signature);
    DescribedParses(b4, padding, h, key, message);
  }

  /** The layout of the instruction that clients send: key, signature and message in sequence behind the header. */
  function ClientHeader(messageLength: nat): Header
  {
    Header(48, U16_MAX, 16, U16_MAX, 112, messageLength % 0x1_0000, U16_MAX)
  }

  function ClientInstruction(signature: Bytes, key: Key, message: Bytes): Bytes
  {
    HeaderBytes(0, ClientHeader(|message|)) + key + signature + message
  }

  /** `build_ed25519_verify_ix`, appending field by field. */
  method BuildVerifyInstruction(signature: Bytes, key: Key, message: Bytes) returns (data: Bytes)
    ensures data == ClientInstruction(signature, key, message)
  {
    data := [1] + [0];
    data := data + EncodeU16(48);
    data := data + EncodeU16(U16_MAX);
    data := data + EncodeU16(16);
    data := data + EncodeU16(U16_MAX);
    data := data + EncodeU16(112);
    data := data + EncodeU16(|message| % 0x1_0000);
    data := data + EncodeU16(U16_MAX);
    data := data + key;
    data := data + signature;
    data := data + message;
  }

  function EncodeU16(v: u16): Bytes
  {
    Encoded(v, 2)
  }

  /** The size field wraps, so what is read back is a prefix of the message. */
  lemma ClientInstructionParsed(signature: Bytes, key: Key, message: Bytes)
    requires |signature| == 64
    ensures Parse(ClientInstruction(signature, key, message)) == Some(Parsed(1, key, message[..|message| % 0x1_0000]))
  {
    var h := ClientHeader(|message|);
    var read := message[..|message| % 0x1_0000];
    ClientLayout(HeaderBytes(0, h), key, signature, message, read);
    assert Describes(ClientInstruction(signature, key, message), 0, h, key, read);
    DescribedParses(ClientInstruction(signature, key, message), 0, h, key, read);
  }

  /** It is the message itself exactly when its length fits in 16 bits. */
  lemma ClientMessageReadBack(signature: Bytes, key: Key, message: Bytes)
    requires |signature| == 64
    ensures Parse(ClientInstruction(signature, key, message)) == Some(Parsed(1, key, message)) <==> |message| <= U16_MAX
  {
    ClientInstructionParsed(signature, key, message);
    PrefixIsWhole(message, |message| % 0x1_0000);
  }

  lemma PrefixIsWhole(message: Bytes, n: nat)
    requires n <= |message|
    ensures message[..n] == message <==> n == |message|
  {
  }

  lemma ClientLayout(head: Bytes, key: Bytes, signature: Bytes, message: Bytes, read: Bytes)
    requires |head| == 16 && |key| == 32 && |signature| == 64 && read <= message
    ensures var data := head + key + signature + message;
      At(data, 0, head) && At(data, 16, key) && At(data, 112, read) && 112 <= |data|
  {
    var data := head + key + signature + message;
    assert data[..16] == head && data[16..48] == key && data[112..112 + |read|] == read;
    AtIsSlice(data, 0, head);
    AtIsSlice(data, 16, key);
    AtIsSlice(data, 112, read);
  }

  // ---------------------------------------------------------------- verify_approval_message_generic

  datatype ApprovalMessage = ApprovalMessage(programId: Key, userPubkey: Key, expiryUnix: u64)

  /** The Borsh form of a message. */
  function Serialize(m: ApprovalMessage): (bytes: Bytes)
    ensures |bytes| == 72
  {
    m.programId + m.userPubkey + Encoded(m.expiryUnix, 8)
  }

  /** `ApprovalMessage::try_from_slice`, which must use up the whole slice. */
  function Deserialize(bytes: Bytes): Option<ApprovalMessage>
  {
    if |bytes| != 72 then None
    else
      ValueOfDigits(bytes[64..72]);
      MachineWidths();
      Some(ApprovalMessage(bytes[..32], bytes[32..64], FromLittleEndian(bytes[64..72])))
  }

  lemma MessageRoundTrip(bytes: Bytes, m: ApprovalMessage)
    ensures Deserialize(bytes) == Some(m) <==> bytes == Serialize(m)
  {
    MachineWidths();
    IntegerRoundTrip(m.expiryUnix, 8, false);
    if |bytes| == 72 {
      BytesRoundTrip(bytes[64..72], false);
      assert bytes == bytes[..32] + bytes[32..64] + bytes[64..72];
    }
    if bytes == Serialize(m) {
      assert bytes[..32] == m.programId && bytes[32..64] == m.userPubkey && bytes[64..72] == Encoded(m.expiryUnix, 8);
    }
  }

  /** The instruction before the current one. */
  datatype Instruction = Instruction(programId: Key, accounts: nat, data: Bytes)

  datatype ApprovalError =
    | Expired | WrongProgram | WrongUser | MissingEd25519Ix | WrongIxProgram | BadEd25519Accounts | MalformedEd25519Ix
    | MultipleSigs | WrongAuthority | MsgDeserialize | MsgMismatch

  /** `Pubkey::default()`, the key of an approver that is not set. */
  predicate IsDefault(key: Key)
  {
    forall i :: 0 <= i < |key| ==> key[i] == 0
  }

  /** The trusted keys: those of the two approvers that are set. */
  predicate Trusted(approver1: Key, approver2: Key, key: Key)
  {
    (!IsDefault(approver1) && key == approver1) || (!IsDefault(approver2) && key == approver2)
  }

  /** A signed 64-bit timestamp as the unsigned clock value. */
  function AsU64(timestamp: i64): u64
  {
    timestamp % (U64_MAX + 1)
  }

  /** `verify_approval_message_generic`; no previous instruction stands for one that cannot be loaded. */
  function VerifyApproval(programId: Key, user: Key, approver1: Key, approver2: Key,
                          ed25519Program: Key, timestamp: i64,
                          previous: Option<Instruction>, msg: ApprovalMessage): Result<(), ApprovalError>
  {
    var now := AsU64(timestamp);
    if now > msg.expiryUnix then Err(Expired)
    else if msg.programId != programId then Err(WrongProgram)
    else if msg.userPubkey != user then Err(WrongUser)
    else if previous.None? then Err(MissingEd25519Ix)
    else if previous.value.programId != ed25519Program then Err(WrongIxProgram)
    else if previous.value.accounts != 0 then Err(BadEd25519Accounts)
    else CheckSigned(programId, user, approver1, approver2, now, Parse(previous.value.data), msg)
  }

  function CheckSigned(programId: Key, user: Key, approver1: Key, approver2: Key, now: u64,
                       parsed: Option<Parsed>, msg: ApprovalMessage): Result<(), ApprovalError>
  {
    if parsed.None? then Err(MalformedEd25519Ix)
    else if parsed.value.sigCount != 1 then Err(MultipleSigs)
    else if !Trusted(approver1, approver2, parsed.value.pubkey) then Err(WrongAuthority)
    else
      match Deserialize(parsed.value.message)
      case None => Err(MsgDeserialize)
      case Some(signed) =>
        if signed.programId != programId then Err(WrongProgram)
        else if signed.userPubkey != user then Err(WrongUser)
        else if signed.expiryUnix < now then Err(Expired)
        else if signed != msg then Err(MsgMismatch)
        else Ok(())
  }

  /**
   * The claim itself is in date and made for this program and this user. A timestamp before 1970 counts as the large
   * number that its 64 bits stand for.
   */
  predicate Claims(programId: Key, user: Key, timestamp: i64, msg: ApprovalMessage)
  {
    && (if timestamp >= 0 then timestamp <= msg.expiryUnix
        else 0x1_0000_0000_0000_0000 + timestamp <= msg.expiryUnix)
    && msg.programId == programId && msg.userPubkey == user
  }

  /** The key of one of the approvers, who is set: the key is not all zeros. */
  ghost predicate IsApprover(approver1: Key, approver2: Key, key: Key)
  {
    (key == approver1 || key == approver2) && exists i :: 0 <= i < 32 && key[i] != 0
  }

  lemma TrustedIsApprover(approver1: Key, approver2: Key, key: Key)
    ensures Trusted(approver1, approver2, key) <==> IsApprover(approver1, approver2, key)
  {
    if IsDefault(key) {
      assert forall i :: 0 <= i < 32 ==> key[i] == 0;
    }
  }

  /** Acceptance in terms of what is parsed. */
  lemma AcceptedParsed(programId: Key, user: Key, approver1: Key, approver2: Key, ed25519Program: Key, timestamp: i64,
                       ix: Instruction, msg: ApprovalMessage)
    ensures VerifyApproval(programId, user, approver1, approver2, ed25519Program, timestamp, Some(ix), msg) == Ok(())
       <==> && Claims(programId, user, timestamp, msg) && ix.programId == ed25519Program && ix.accounts == 0
            && Parse(ix.data).Some? && Parse(ix.data).value.sigCount == 1
            && Trusted(approver1, approver2, Parse(ix.data).value.pubkey)
            && Parse(ix.data).value.message == Serialize(msg)
  {
    if Claims(programId, user, timestamp, msg) {
      AcceptedSigned(programId, user, approver1, approver2, AsU64(timestamp), Parse(ix.data), msg);
    }
  }

  lemma AcceptedSigned(programId: Key, user: Key, approver1: Key, approver2: Key, now: u64, parsed: Option<Parsed>,
                       msg: ApprovalMessage)
    requires now <= msg.expiryUnix && msg.programId == programId && msg.userPubkey == user
    ensures CheckSigned(programId, user, approver1, approver2, now, parsed, msg) == Ok(())
       <==> parsed.Some? && parsed.value.sigCount == 1 && Trusted(approver1, approver2, parsed.value.pubkey)
            && parsed.value.message == Serialize(msg)
  {
    if parsed.Some? {
      MessageRoundTrip(parsed.value.message, msg);
    }
  }

  /**
   * An approval is accepted exactly when the claim is good and the previous instruction is an Ed25519 verification,
   * without accounts, of one signature by a set approver over precisely the serialized claim.
   */
  lemma ApprovalSoundAndComplete(programId: Key, user: Key, approver1: Key, approver2: Key,
                                 ed25519Program: Key, timestamp: i64,
                                 previous: Option<Instruction>, msg: ApprovalMessage)
    ensures VerifyApproval(programId, user, approver1, approver2, ed25519Program, timestamp, previous, msg) == Ok(())
       <==> Claims(programId, user, timestamp, msg) && previous.Some?
            && previous.value.programId == ed25519Program && previous.value.accounts == 0
            && exists key, padding, h ::
                 && IsApprover(approver1, approver2, key)
                 && Describes(previous.value.data, padding, h, key, Serialize(msg))
  {
    if previous.Some? {
      var data := previous.value.data;
      AcceptedParsed(programId, user, approver1, approver2, ed25519Program, timestamp, previous.value, msg);
      if Parse(data).Some? {
        TrustedIsApprover(approver1, approver2, Parse(data).value.pubkey);
        ParseSoundAndComplete(data, Parse(data).value.pubkey, Serialize(msg));
      }
      if key, padding, h :| IsApprover(approver1, approver2, key) && Describes(data, padding, h, key, Serialize(msg)) {
        TrustedIsApprover(approver1, approver2, key);
        DescribedParses(data, padding, h, key, Serialize(msg));
      }
    }
  }

  /** The claim is judged first: one that is out of date, or for another program or user, is refused as such. */
  lemma BadClaimRefused(programId: Key, user: Key, approver1: Key, approver2: Key, ed25519Program: Key, timestamp: i64,
                        previous: Option<Instruction>, msg: ApprovalMessage)
    ensures
      var r := VerifyApproval(programId, user, approver1, approver2, ed25519Program, timestamp, previous, msg);
      var outOfDate := if timestamp >= 0 then timestamp > msg.expiryUnix
                       else 0x1_0000_0000_0000_0000 + timestamp > msg.expiryUnix;
      && (outOfDate ==> r == Err(Expired))
      && (!outOfDate && msg.programId != programId ==> r == Err(WrongProgram))
      && (!outOfDate && msg.programId == programId && msg.userPubkey != user ==> r == Err(WrongUser))
  {
  }

  /** What a good claim is answered when the instruction before is missing, another one, or describes no signature. */
  lemma NoSignatureRefused(programId: Key, user: Key, approver1: Key, approver2: Key, ed25519Program: Key,
                           timestamp: i64, previous: Option<Instruction>, msg: ApprovalMessage)
    requires Claims(programId, user, timestamp, msg)
    ensures var r := VerifyApproval(programId, user, approver1, approver2, ed25519Program, timestamp, previous, msg);
      && (previous.None? ==> r == Err(MissingEd25519Ix))
      && (previous.Some? ==>
            var ix := previous.value;
            && (ix.programId != ed25519Program ==> r == Err(WrongIxProgram))
            && (ix.programId == ed25519Program && ix.accounts != 0 ==> r == Err(BadEd25519Accounts))
            && (ix.programId == ed25519Program && ix.accounts == 0
                && (forall padding, h, key, message :: !Describes(ix.data, padding, h, key, message)) ==>
                  r == Err(MalformedEd25519Ix)))
  {
    if previous.Some? && Parse(previous.value.data).Some? {
      var parsed := Parse(previous.value.data).value;
      ParseSoundAndComplete(previous.value.data, parsed.pubkey, parsed.message);
    }
  }

  /** What a good claim is answered when the instruction before verifies the signature of `key` over `message`. */
  lemma SignatureAnswered(programId: Key, user: Key, approver1: Key, approver2: Key, ed25519Program: Key,
                          timestamp: i64, ix: Instruction, msg: ApprovalMessage,
                          padding: u8, h: Header, key: Key, message: Bytes)
    requires Claims(programId, user, timestamp, msg)
    requires ix.programId == ed25519Program && ix.accounts == 0 && Describes(ix.data, padding, h, key, message)
    ensures VerifyApproval(programId, user, approver1, approver2, ed25519Program, timestamp, Some(ix), msg) ==
      if !IsApprover(approver1, approver2, key) then Err(WrongAuthority)
      else if |message| != 72 then Err(MsgDeserialize)
      else if message[..32] != programId then Err(WrongProgram)
      else if message[32..64] != user then Err(WrongUser)
      else if FromLittleEndian(message[64..]) < (if timestamp < 0 then 0x1_0000_0000_0000_0000 else 0) + timestamp
        then Err(Expired)
      else if message != Serialize(msg) then Err(MsgMismatch)
      else Ok(())
  {
    DescribedParses(ix.data, padding, h, key, message);
    ParsedAnswered(programId, user, approver1, approver2, ed25519Program, timestamp, ix, msg, Parsed(1, key, message));
    SignedAnswered(programId, user, approver1, approver2, AsU64(timestamp), key, message, msg);
  }

  lemma ParsedAnswered(programId: Key, user: Key, approver1: Key, approver2: Key, ed25519Program: Key, timestamp: i64,
                       ix: Instruction, msg: ApprovalMessage, parsed: Parsed)
    requires Claims(programId, user, timestamp, msg)
    requires ix.programId == ed25519Program && ix.accounts == 0 && Parse(ix.data) == Some(parsed)
    ensures VerifyApproval(programId, user, approver1, approver2, ed25519Program, timestamp, Some(ix), msg)
         == CheckSigned(programId, user, approver1, approver2, AsU64(timestamp), Some(parsed), msg)
  {
  }

  lemma SignedAnswered(programId: Key, user: Key, approver1: Key, approver2: Key, now: u64, key: Key, message: Bytes,
                       msg: ApprovalMessage)
    ensures CheckSigned(programId, user, approver1, approver2, now, Some(Parsed(1, key, message)), msg) ==
      if !IsApprover(approver1, approver2, key) then Err(WrongAuthority)
      else if |message| != 72 then Err(MsgDeserialize)
      else if message[..32] != programId then Err(WrongProgram)
      else if message[32..64] != user then Err(WrongUser)
      else if FromLittleEndian(message[64..]) < now then Err(Expired)
      else if message != Serialize(msg) then Err(MsgMismatch)
      else Ok(())
  {
    TrustedIsApprover(approver1, approver2, key);
    MessageRoundTrip(message, msg);
    if |message| == 72 {
      assert message[64..] == message[64..72];
    }
  }

  /** The bytes of an instruction fix its padding, header, key and message. */
  lemma InstructionsUnambiguous(data: Bytes, padding: u8, h: Header, key: Key, message: Bytes,
                                padding': u8, h': Header, key': Key, message': Bytes)
    requires Describes(data, padding, h, key, message) && Describes(data, padding', h', key', message')
    ensures padding == padding' && h == h' && key == key' && message == message'
  {
    HeaderUnique(data, padding, h);
    HeaderUnique(data, padding', h');
    assert HeaderBytes(padding, h)[1] == data[1] && HeaderBytes(padding', h')[1] == data[1];
    DescribedParses(data, padding, h, key, message);
    DescribedParses(data, padding', h', key', message');
  }

  /** One signed instruction approves one claim only. */
  lemma OneClaimPerInstruction(programId: Key, user: Key, approver1: Key, approver2: Key,
                               ed25519Program: Key, timestamp: i64,
                               previous: Option<Instruction>, m: ApprovalMessage,
                               programId': Key, user': Key, timestamp': i64, m': ApprovalMessage)
    requires VerifyApproval(programId, user, approver1, approver2, ed25519Program, timestamp, previous, m) == Ok(())
    requires VerifyApproval(programId', user', approver1, approver2, ed25519Program, timestamp', previous, m') == Ok(())
    ensures m == m' && programId == programId' && user == user'
  {
  }

  /** What a client builds for a claim is accepted exactly when the claim is good and the key is a set approver's. */
  lemma ClientApproval(programId: Key, user: Key, approver1: Key, approver2: Key, ed25519Program: Key, timestamp: i64,
                       signature: Bytes, key: Key, msg: ApprovalMessage)
    requires |signature| == 64
    ensures var ix := Instruction(ed25519Program, 0, ClientInstruction(signature, key, Serialize(msg)));
      VerifyApproval(programId, user, approver1, approver2, ed25519Program, timestamp, Some(ix), msg) == Ok(())
      <==> Claims(programId, user, timestamp, msg) && IsApprover(approver1, approver2, key)
  {
    TrustedIsApprover(approver1, approver2, key);
    var ix := Instruction(ed25519Program, 0, ClientInstruction(signature, key, Serialize(msg)));
    ClientMessageReadBack(signature, key, Serialize(msg));
    AcceptedParsed(programId, user, approver1, approver2, ed25519Program, timestamp, ix, msg);
  }
}
