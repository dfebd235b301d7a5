/** stun_message.cpp: parsing of STUN messages and the binding response.

    HMAC-SHA1 is a parameter: any function to 20 bytes. */
module Stun {
  import opened Bytes
  import opened ByteBuffer
  import Crc32

  const MAGIC_COOKIE: UInt32 := 0x2112A442
  const HEADER_SIZE: nat := 20
  const TRANSACTION_ID_LENGTH: nat := 12
  const LENGTH_OFFSET: nat := 2
  const SHA1_RESULT_LENGTH: nat := 20
  const BINDING_RESPONSE: UInt16 := 0x0101
  const ATTR_USERNAME: UInt16 := 0x0006
  const ATTR_MESSAGE_INTEGRITY: UInt16 := 0x0008
  const ATTR_XOR_MAPPED_ADDRESS: UInt16 := 0x0020
  const ATTR_USE_CANDIDATE: UInt16 := 0x0025
  const ATTR_FINGERPRINT: UInt16 := 0x8028
  const ATTR_ICE_CONTROLLED: UInt16 := 0x8029

  type Digest = d: seq<Byte> | |d| == 20 witness [0, 0, 0, 0, 0, 0, 0, 0, 0, 0, 0, 0, 0, 0, 0, 0, 0, 0, 0, 0]
  type Hmac = (seq<Byte>, seq<Byte>) -> Digest

  /** Who is asked, and how the integrity of a message is computed. */
  datatype Credentials = Credentials(
    localUfrag: seq<Byte>, localPassword: seq<Byte>, remoteUfrag: seq<Byte>, hmac: Hmac)

  /** An IPv4 endpoint. */
  datatype Endpoint = Endpoint(port: bv16, address: bv32)

  // ----- specification of the parser -----

  /** Section 15.5 of RFC 5389: the CRC of what comes before, XORed with "STUN". */
  function Fingerprint(covered: seq<Byte>): UInt32 {
    Crc32.Xor(Crc32.BitwiseCrc(covered), 0x5354554e) as int
  }

  /** What the attribute loop has noted. */
  datatype Notes = Notes(integrity: Option<nat>, hasFingerprint: bool, useCandidate: bool)

  /** The outcome of the attribute loop. Beyond: it would read behind the end of the buffer. */
  datatype Walk = Rejected(useCandidate: bool) | Beyond | Accepted(notes: Notes)

  function EndsWith(s: seq<Byte>, t: seq<Byte>): bool {
    |t| <= |s| && s[|s| - |t|..] == t
  }

  /** An attribute's length padded to a multiple of four, in 16 bits. */
  function Padded(length: UInt16): UInt16 {
    if length % 4 != 0 then (length + 4 - length % 4) % TWO_TO_16 else length
  }

  /** One attribute at pos: its effect on the notes. */
  function Attribute(c: Credentials, s: seq<Byte>, pos: nat, n: Notes): Walk
    requires pos + 4 <= |s|
  {
    var attrType, length, value := LoadUInt16BE(s, pos), LoadUInt16BE(s, pos + 2), pos + 4;
    if attrType == ATTR_USERNAME then
      if value + length > |s| then Beyond
      else
        var name := s[value..value + length];
        if c.localUfrag <= name && EndsWith(name, c.remoteUfrag) then Accepted(n) else Rejected(n.useCandidate)
    else if attrType == ATTR_MESSAGE_INTEGRITY then Accepted(n.(integrity := Some(pos)))
    else if attrType == ATTR_FINGERPRINT then
      if value + 4 > |s| then Beyond
      else if LoadUInt32BE(s, value) == Fingerprint(s[..pos]) then Accepted(n.(hasFingerprint := true))
      else Rejected(n.useCandidate)
    else if attrType == ATTR_USE_CANDIDATE then Accepted(n.(useCandidate := true))
    else if attrType == ATTR_ICE_CONTROLLED then Rejected(n.useCandidate)
    else Accepted(n)
  }

  /** The attributes from pos on. */
  function Attributes(c: Credentials, s: seq<Byte>, pos: nat, n: Notes): Walk
    requires pos <= |s|
    decreases |s| - pos
  {
    if pos == |s| then Accepted(n)
    else if pos + 4 > |s| then Rejected(n.useCandidate)
    else
      var w := Attribute(c, s, pos, n);
      var next := pos + 4 + Padded(LoadUInt16BE(s, pos + 2));
      if !w.Accepted? then w
      else if next > |s| then Rejected(w.notes.useCandidate)
      else Attributes(c, s, next, w.notes)
  }

  function StartNotes(useCandidate: bool): Notes {
    Notes(None, false, useCandidate)
  }

  /** The header is complete and carries the magic cookie. */
  predicate HeaderOk(s: seq<Byte>) {
    |s| >= HEADER_SIZE && LoadUInt32BE(s, 4) == MAGIC_COOKIE
  }

  /** What the parser makes of header and attributes. */
  function WalkOf(c: Credentials, s: seq<Byte>, useCandidate: bool): Walk {
    if !HeaderOk(s) then Rejected(useCandidate)
    else
      var w := Attributes(c, s, HEADER_SIZE, StartNotes(useCandidate));
      if w.Accepted? && w.notes.integrity.Some? && w.notes.integrity.value + 24 > |s| then Beyond else w
  }

  /** The use-candidate flag after the walk. */
  function FlagOf(w: Walk): bool {
    match w
    case Rejected(useCandidate) => useCandidate
    case Accepted(notes) => notes.useCandidate
    case Beyond => false
  }

  function WithLength(s: seq<Byte>, length: int): (r: seq<Byte>)
    requires |s| >= 4
    ensures |r| == |s|
  {
    Overwrite(s, LENGTH_OFFSET, UInt16Bytes(length % TWO_TO_16))
  }

  /** The verdict on a message and the bytes it leaves in the buffer. */
  datatype Verdict = Verdict(ok: bool, buffer: seq<Byte>)

  /** Sections 15.4 and 15.5 of RFC 5389: with a fingerprint behind it, the integrity is
      computed with the length field set as if the message ended before the fingerprint.
      The field is set back only when the integrity holds. */
  function Integrity(c: Credentials, s: seq<Byte>, n: Notes): Verdict
    requires |s| >= HEADER_SIZE && (n.integrity.Some? ==> n.integrity.value + 24 <= |s|)
  {
    if n.integrity.None? then Verdict(true, s)
    else
      var at := n.integrity.value;
      var b := if n.hasFingerprint then WithLength(s, |s| - 28) else s;
      if b[at + 4..at + 24] != c.hmac(c.localPassword, b[..at]) then Verdict(false, b)
      else if n.hasFingerprint then Verdict(true, WithLength(b, |s| - 20))
      else Verdict(true, b)
  }

  function Judge(c: Credentials, s: seq<Byte>, useCandidate: bool): Verdict
    requires !WalkOf(c, s, useCandidate).Beyond?
  {
    var w := WalkOf(c, s, useCandidate);
    if w.Rejected? then Verdict(false, s) else assert |s| >= HEADER_SIZE; Integrity(c, s, w.notes)
  }

  // ----- specification of the response -----

  function ResponseHead(length: UInt16, transactionId: seq<Byte>): seq<Byte> {
    UInt16Bytes(BINDING_RESPONSE) + (UInt16Bytes(length) + (UInt32Bytes(MAGIC_COOKIE) + transactionId))
  }

  function MaskPort(port: bv16): bv16 {
    port ^ 0x2112
  }

  function MaskAddress(address: bv32): bv32 {
    address ^ 0x2112A442
  }

  function XorPort(port: bv16): UInt16 {
    MaskPort(port) as int
  }

  function XorAddress(address: bv32): UInt32 {
    MaskAddress(address) as int
  }

  /** Section 15.2 of RFC 5389, IPv4. */
  function XorMappedAddress(e: Endpoint): (r: seq<Byte>)
    ensures |r| == 12
  {
    UInt16Bytes(ATTR_XOR_MAPPED_ADDRESS)
    + (UInt16Bytes(8) + ([0] + ([1] + (UInt16Bytes(XorPort(e.port)) + UInt32Bytes(XorAddress(e.address))))))
  }

  function MessageIntegrity(digest: Digest): (r: seq<Byte>)
    ensures |r| == 24
  {
    UInt16Bytes(ATTR_MESSAGE_INTEGRITY) + (UInt16Bytes(20) + digest)
  }

  function FingerprintAttribute(fingerprint: UInt32): (r: seq<Byte>)
    ensures |r| == 8
  {
    UInt16Bytes(ATTR_FINGERPRINT) + (UInt16Bytes(4) + UInt32Bytes(fingerprint))
  }

  /** What the digest of a response covers: the length counts up to the integrity attribute. */
  function Covered(transactionId: seq<Byte>, e: Endpoint): seq<Byte> {
    ResponseHead(36, transactionId) + XorMappedAddress(e)
  }

  function Signed(c: Credentials, transactionId: seq<Byte>, e: Endpoint): seq<Byte> {
    ResponseHead(44, transactionId)
    + (XorMappedAddress(e) + MessageIntegrity(c.hmac(c.localPassword, Covered(transactionId, e))))
  }

  function Response(c: Credentials, transactionId: seq<Byte>, e: Endpoint): seq<Byte> {
    Signed(c, transactionId, e) + FingerprintAttribute(Fingerprint(Signed(c, transactionId, e)))
  }

  // ----- the message object -----

  class StunMessage {
    var transactionId: seq<Byte>
    var mappedEndpoint: Option<Endpoint>
    var response: seq<Byte>
    var hasUseCandidate: bool
    const credentials: Credentials

    constructor (credentials: Credentials)
      ensures this.credentials == credentials && transactionId == [] && !hasUseCandidate
      ensures mappedEndpoint == None && response == []
    {
      this.credentials := credentials;
      transactionId := [];
      mappedEndpoint := None;
      response := [];
      hasUseCandidate := false;
    }
 
    /** The switch on the attribute type. */
    method HandleAttribute(table: array<bv32>, s: seq<Byte>, pos: nat, n: Notes) returns (ok: bool, n': Notes)
      requires pos + 4 <= |s| && Crc32.IsTable(table[..]) && !Attribute(credentials, s, pos, n).Beyond?
      ensures Attribute(credentials, s, pos, n) == if ok then Accepted(n') else Rejected(n'.useCandidate)
    {
      var attrType, attrLength, value := LoadUInt16BE(s, pos), LoadUInt16BE(s, pos + 2), pos + 4;
      ok, n' := true, n;
      if attrType == ATTR_USERNAME {
        var userName := s[value..value + attrLength];
        ok := credentials.localUfrag <= userName && EndsWith(userName, credentials.remoteUfrag);
      } else if attrType == ATTR_MESSAGE_INTEGRITY {
        n' := n.(integrity := Some(pos));
      } else if attrType == ATTR_FINGERPRINT {
        var announced := LoadUInt32BE(s, value);
        var crc := Crc32.Calculate(table, s[..pos]);
        if announced != Crc32.Xor(crc, 0x5354554e) as int {
          ok := false;
        } else {
          n' := n.(hasFingerprint := true);
        }
      } else if attrType == ATTR_USE_CANDIDATE {
        n' := n.(useCandidate := true);
      } else if attrType == ATTR_ICE_CONTROLLED {
        ok := false;
      }
    }

    /** The attribute loop. */
    method ParseAttributes(table: array<bv32>, reader: ByteReader) returns (ok: bool, n: Notes)
      requires reader.Valid() && reader.start == HEADER_SIZE && Crc32.IsTable(table[..])
      requires !Attributes(credentials, reader.bytes, HEADER_SIZE, StartNotes(hasUseCandidate)).Beyond?
      modifies reader
      ensures Attributes(credentials, reader.bytes, HEADER_SIZE, StartNotes(hasUseCandidate))
              == if ok then Accepted(n) else Rejected(n.useCandidate)
    {
      hide Attribute, LoadUInt16BE;
      n := StartNotes(hasUseCandidate);
      ghost var w := Attributes(credentials, reader.bytes, HEADER_SIZE, n);
      while reader.Left() > 0
        invariant reader.Valid() && Crc32.IsTable(table[..])
        invariant Attributes(credentials, reader.bytes, reader.start, n) == w
        decreases reader.Left()
      {
        var pos := reader.start;
        var attrType, attrLength;
        ok, attrType := reader.ReadUInt16();
        if !ok { return; }
        ok, attrLength := reader.ReadUInt16();
        if !ok { return; }
        ok, n := HandleAttribute(table, reader.bytes, pos, n);
        if !ok { return; }
        if attrLength % 4 != 0 {
          attrLength := (attrLength + 4 - attrLength % 4) % TWO_TO_16;
        }
        ok := reader.Consume(attrLength);
        if !ok { return; }
      }
      ok := true;
    }

    /** Parses a message in place. */
    method Parse(table: array<bv32>, data: array<Byte>) returns (ok: bool)
      requires Crc32.IsTable(table[..])
      requires !WalkOf(credentials, data[..], hasUseCandidate).Beyond?
      modifies this, data
      ensures Verdict(ok, data[..]) == old(Judge(credentials, data[..], hasUseCandidate))
      ensures transactionId == old(transactionId) + (if HeaderOk(old(data[..])) then old(data[..])[8..20] else [])
      ensures hasUseCandidate == old(FlagOf(WalkOf(credentials, data[..], hasUseCandidate)))
      ensures mappedEndpoint == old(mappedEndpoint) && response == old(response)
    {
      var size := data.Length;
      var reader := new ByteReader(data[..]);
      var length, cookie, id, n;
      ok, length := reader.ReadUInt16();
      if !ok { return; }
      ok, length := reader.ReadUInt16();
      if !ok { return; }
      ok, cookie := reader.ReadUInt32();
      if !ok || cookie != MAGIC_COOKIE {
        return false;
      }
      ok, id := reader.ReadBytes(TRANSACTION_ID_LENGTH);
      if !ok { return; }
      transactionId := transactionId + id;
      ok, n := ParseAttributes(table, reader);
      hasUseCandidate := n.useCandidate;
      if !ok { return; }
      if n.integrity.Some? {
        ok := CheckIntegrity(data, n.integrity.value, n.hasFingerprint);
      }
    }

    /** The length field is rewritten, the digest compared, and the field set back. */
    method CheckIntegrity(data: array<Byte>, at: nat, hasFingerprint: bool) returns (ok: bool)
      requires data.Length >= HEADER_SIZE && at + 24 <= data.Length
      modifies data
      ensures Verdict(ok, data[..])
              == Integrity(credentials, old(data[..]), Notes(Some(at), hasFingerprint, hasUseCandidate))
    {
      hide UInt16Bytes, Overwrite;
      if hasFingerprint {
        StoreUInt16BE(data, LENGTH_OFFSET, (data.Length - 28) % TWO_TO_16);
      }
      var result := credentials.hmac(credentials.localPassword, data[..at]);
      ghost var b := data[..];
      assert data[at + 4..at + 24] == b[at + 4..at + 24] && data[..at] == b[..at];
      if data[at + 4..at + 24] != result {
        return false;
      }
      if hasFingerprint {
        StoreUInt16BE(data, LENGTH_OFFSET, (data.Length - 20) % TWO_TO_16);
      }
      ok := true;
    }

    method WriteHead(writer: ByteWriter, length: UInt16) returns (ok: bool)
      requires writer.Valid() && writer.len == 0 && writer.bytes.Length == 64
      requires |transactionId| == TRANSACTION_ID_LENGTH
      modifies writer, writer.bytes
      ensures ok && writer.Valid() && writer.len == 20
      ensures writer.Written() == ResponseHead(length, transactionId)
    {
      hide UInt16Bytes, UInt32Bytes;
      ok := writer.WriteUInt16(BINDING_RESPONSE);
      ok := writer.WriteUInt16(length);
      ok := writer.WriteUInt32(MAGIC_COOKIE);
      ok := writer.WriteBytes(transactionId);
      Joined([], [], [], UInt16Bytes(BINDING_RESPONSE), UInt16Bytes(length), UInt32Bytes(MAGIC_COOKIE), transactionId);
      assert [] + ([] + ([] + ResponseHead(length, transactionId))) == ResponseHead(length, transactionId);
    }

    method WriteAddress(writer: ByteWriter, e: Endpoint) returns (ok: bool)
      requires writer.Valid() && writer.len == 20 && writer.bytes.Length == 64
      modifies writer, writer.bytes
      ensures ok && writer.Valid() && writer.len == 32
      ensures writer.Written() == old(writer.Written()) + XorMappedAddress(e)
    {
      hide UInt16Bytes, UInt32Bytes, XorPort, XorAddress;
      var port, address := XorPort(e.port), XorAddress(e.address);
      ghost var w := writer.Written();
      ok := writer.WriteUInt16(ATTR_XOR_MAPPED_ADDRESS);
      ok := writer.WriteUInt16(8);
      ok := writer.WriteUInt8(0);
      ok := writer.WriteUInt8(1);
      ok := writer.WriteUInt16(port);
      ok := writer.WriteUInt32(address);
      Joined(w, UInt16Bytes(ATTR_XOR_MAPPED_ADDRESS), UInt16Bytes(8), [0], [1],
             UInt16Bytes(port), UInt32Bytes(address));
    }

    method WriteIntegrity(writer: ByteWriter, digest: Digest) returns (ok: bool)
      requires writer.Valid() && writer.len == 32 && writer.bytes.Length == 64
      modifies writer, writer.bytes
      ensures ok && writer.Valid() && writer.len == 56
      ensures writer.Written() == old(writer.Written()) + MessageIntegrity(digest)
    {
      hide UInt16Bytes;
      ok := writer.WriteUInt16(ATTR_MESSAGE_INTEGRITY);
      ok := writer.WriteUInt16(SHA1_RESULT_LENGTH);
      ok := writer.WriteBytes(digest);
    }

    method WriteFingerprint(writer: ByteWriter, crc: UInt32) returns (ok: bool)
      requires writer.Valid() && writer.len == 56 && writer.bytes.Length == 64
      modifies writer, writer.bytes
      ensures ok && writer.Valid() && writer.len == 64
      ensures writer.Written() == old(writer.Written()) + FingerprintAttribute(crc)
    {
      hide UInt16Bytes, UInt32Bytes;
      ok := writer.WriteUInt16(ATTR_FINGERPRINT);
      ok := writer.WriteUInt16(4);
      ok := writer.WriteUInt32(crc);
    }

    /** Builds the binding response for the transaction and endpoint set. */
    method CreateResponse(table: array<bv32>) returns (ok: bool)
      requires Crc32.IsTable(table[..])
      requires |transactionId| == TRANSACTION_ID_LENGTH && mappedEndpoint.Some?
      modifies `response
      ensures ok && response == Response(credentials, transactionId, mappedEndpoint.value)
    {
      hide ResponseHead, XorMappedAddress, MessageIntegrity, FingerprintAttribute, Crc32.BitwiseCrc, Crc32.Xor;
      var size := HEADER_SIZE + 12 + 24 + 8;
      var data := new Byte[size];
      var writer := new ByteWriter(data);
      ok := WriteHead(writer, size - HEADER_SIZE);
      ok := WriteAddress(writer, mappedEndpoint.value);
      ghost var address := XorMappedAddress(mappedEndpoint.value);
      SetResponseLength(data, 36, 44, transactionId, address, 32);
      assert writer.Written() == Covered(transactionId, mappedEndpoint.value);
      var result := credentials.hmac(credentials.localPassword, writer.Written());
      ok := WriteIntegrity(writer, result);
      ghost var mac := MessageIntegrity(result);
      Regroup(ResponseHead(36, transactionId), address, mac);
      SetResponseLength(data, 44, 36, transactionId, address + mac, 56);
      assert writer.Written() == Signed(credentials, transactionId, mappedEndpoint.value);
      var crc := Crc32.Calculate(table, writer.Written());
      ok := WriteFingerprint(writer, Crc32.Xor(crc, 0x5354554e) as int);
      response := writer.Written();
    }
  }

  lemma Joined<T>(o: seq<T>, a: seq<T>, b: seq<T>, c: seq<T>, d: seq<T>, e: seq<T>, f: seq<T>)
    ensures o + a + b + c + d + e + f == o + (a + (b + (c + (d + (e + f)))))
  {
    Regroup(d, e, f);
    Regroup(c, d + e, f);
    Regroup(o + a + b, c, d);
  }

  lemma HeadWithLength(a: UInt16, b: UInt16, transactionId: seq<Byte>, rest: seq<Byte>)
    ensures WithLength(ResponseHead(a, transactionId) + rest, b) == ResponseHead(b, transactionId) + rest
  {
    hide UInt32Bytes;
    assert b % TWO_TO_16 == b;
  }

  /** The length field in front of what has been written is overwritten. */
  method SetResponseLength(data: array<Byte>, length: UInt16, ghost was: UInt16,
                           ghost transactionId: seq<Byte>, ghost rest: seq<Byte>, ghost written: nat)
    requires 4 <= written <= data.Length && data[..written] == ResponseHead(was, transactionId) + rest
    modifies data
    ensures data[..written] == ResponseHead(length, transactionId) + rest
  {
    hide ResponseHead, UInt16Bytes;
    ghost var b := data[..];
    StoreUInt16BE(data, LENGTH_OFFSET, length);
    HeadWithLength(was, length, transactionId, rest);
    LengthOfPrefix(b, length, written);
  }

  lemma LengthOfPrefix(s: seq<Byte>, length: UInt16, n: nat)
    requires 4 <= n <= |s|
    ensures WithLength(s, length)[..n] == WithLength(s[..n], length)
    ensures WithLength(s, length) == Overwrite(s, LENGTH_OFFSET, UInt16Bytes(length))
  {
    hide UInt16Bytes;
    assert length % TWO_TO_16 == length;
  }
}
