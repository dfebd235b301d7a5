/** rtcp_packet.cpp: parsing of compound RTCP packets and serialization of sender reports. */
module Rtcp {
  import opened Bytes
  import opened ByteBuffer

  const TYPE_SR: Byte := 200
  const TYPE_RR: Byte := 201
  const TYPE_RTPFB: Byte := 205

  /** The common header of section 6.4.1 of RFC 3550, four bytes. */
  datatype Header = Header(countOrFormat: Byte, padding: Byte, version: Byte, packetType: Byte, length: UInt16)

  datatype ReportBlock = ReportBlock(
    sourceSsrc: UInt32, fractionLost: Byte, cumulativeLost: UInt24, extendedHighSeqNum: UInt32,
    jitter: UInt32, lastSr: UInt32, delaySinceLastSr: UInt32)

  datatype RtcpPacket =
    | Nack(header: Header, senderSsrc: UInt32, mediaSsrc: UInt32, lost: seq<UInt16>)
    | ReceiverReport(header: Header, senderSsrc: UInt32, blocks: seq<ReportBlock>)
    | Plain(header: Header)

  /** A packet and the offset behind it. */
  datatype Parsed = Failed | Parsed(packet: RtcpPacket, next: nat)

  // ----- specification of the parsers -----

  function HeaderAt(s: seq<Byte>, pos: nat): Header
    requires pos + 4 <= |s|
  {
    Header(s[pos] % 0x20, s[pos] / 0x20 % 2, s[pos] / 0x40, s[pos + 1], LoadUInt16BE(s, pos + 2))
  }

  function ParsePlain(s: seq<Byte>, pos: nat): Parsed {
    if pos + 4 > |s| then Failed
    else
      var h := HeaderAt(s, pos);
      if pos + 4 + 4 * h.length > |s| then Failed else Parsed(Plain(h), pos + 4 + 4 * h.length)
  }

  function ReportBlockAt(s: seq<Byte>, pos: nat): ReportBlock
    requires pos + 24 <= |s|
  {
    ReportBlock(LoadUInt32BE(s, pos), s[pos + 4], LoadUInt24BE(s, pos + 5), LoadUInt32BE(s, pos + 8),
                LoadUInt32BE(s, pos + 12), LoadUInt32BE(s, pos + 16), LoadUInt32BE(s, pos + 20))
  }

  function ReportBlocksAt(s: seq<Byte>, pos: nat, n: nat): seq<ReportBlock>
    requires pos + 24 * n <= |s|
  {
    if n == 0 then [] else ReportBlocksAt(s, pos, n - 1) + [ReportBlockAt(s, pos + 24 * (n - 1))]
  }

  /** The report count alone decides how much is read; the length field is not looked at. */
  function ParseReceiverReport(s: seq<Byte>, pos: nat): Parsed {
    if pos + 4 > |s| then Failed
    else
      var h := HeaderAt(s, pos);
      if pos + 8 + 24 * h.countOrFormat > |s| then Failed
      else
        Parsed(ReceiverReport(h, LoadUInt32BE(s, pos + 4), ReportBlocksAt(s, pos + 8, h.countOrFormat)),
               pos + 8 + 24 * h.countOrFormat)
  }

  /** The numbers pid, pid + 1, ... modulo 2^16 at the set bits of the mask. */
  function Expand(pid: UInt16, mask: UInt16): seq<UInt16>
    decreases mask
  {
    if mask == 0 then []
    else (if mask % 2 == 1 then [pid] else []) + Expand((pid + 1) % TWO_TO_16, mask / 2)
  }

  /** The numbers one FCI item asks for (section 6.2.1 of RFC 4585). */
  function ItemNumbers(pid: UInt16, blp: UInt16): seq<UInt16> {
    [pid] + Expand((pid + 1) % TWO_TO_16, blp)
  }

  function LostNumbersAt(s: seq<Byte>, pos: nat, n: nat): seq<UInt16>
    requires pos + 4 * n <= |s|
  {
    if n == 0 then []
    else
      var at := pos + 4 * (n - 1);
      LostNumbersAt(s, pos, n - 1) + ItemNumbers(LoadUInt16BE(s, at), LoadUInt16BE(s, at + 2))
  }

  /** The number of FCI items: the payload behind the two SSRCs in units of four bytes,
      which underflows in size_t for a length below 2. */
  function NackItems(length: UInt16): UInt64 {
    if length >= 2 then length - 2 else TWO_TO_64 / 4 - 2 + length
  }

  lemma NackItemsUnderflow(length: UInt16)
    ensures (4 * length - 8) % TWO_TO_64 / 4 == NackItems(length)
  {
  }

  function ParseNack(s: seq<Byte>, pos: nat): Parsed {
    if pos + 12 > |s| then Failed
    else
      var h := HeaderAt(s, pos);
      var n := NackItems(h.length);
      if pos + 12 + 4 * n > |s| then Failed
      else
        Parsed(Nack(h, LoadUInt32BE(s, pos + 4), LoadUInt32BE(s, pos + 8), LostNumbersAt(s, pos + 12, n)),
               pos + 12 + 4 * n)
  }

  /** The packet at pos, parsed by its type and format. */
  function ParseOne(s: seq<Byte>, pos: nat): (r: Parsed)
    requires pos + 2 <= |s|
    ensures r.Parsed? ==> pos + 4 <= r.next <= |s|
  {
    if s[pos + 1] == TYPE_RTPFB && s[pos] % 0x20 == 1 then ParseNack(s, pos)
    else if s[pos + 1] == TYPE_RR then ParseReceiverReport(s, pos)
    else ParsePlain(s, pos)
  }

  /** The packets from pos on; None if one of them does not parse. */
  function ParseAll(s: seq<Byte>, pos: nat): Option<seq<RtcpPacket>>
    requires pos <= |s|
    decreases |s| - pos
  {
    if |s| - pos < 2 then Some([])
    else
      var p := ParseOne(s, pos);
      if p.Failed? then None else Prepend([p.packet], ParseAll(s, p.next))
  }

  function Prepend(front: seq<RtcpPacket>, rest: Option<seq<RtcpPacket>>): Option<seq<RtcpPacket>> {
    if rest.None? then None else Some(front + rest.value)
  }

  // ----- the parsers -----

  method ParseCommonHeader(reader: ByteReader) returns (ok: bool, header: Header)
    requires reader.Valid()
    modifies reader
    ensures reader.Valid() && ok == (old(reader.Left()) >= 4)
    ensures ok ==> reader.start == old(reader.start) + 4 && header == HeaderAt(reader.bytes, old(reader.start))
  {
    var raw;
    ok, raw := reader.ReadBytes(4);
    header := Header(0, 0, 0, 0, 0);
    if ok {
      header := Header(raw[0] % 0x20, raw[0] / 0x20 % 2, raw[0] / 0x40, raw[1], LoadUInt16BE(raw, 2));
    }
  }

  /** The outcome of a parser: what the specification says, with the cursor behind the packet. */
  ghost predicate Outcome(reader: ByteReader, ok: bool, packet: RtcpPacket, spec: Parsed)
    reads reader
  {
    && reader.Valid()
    && (if ok then spec == Parsed(packet, reader.start) else spec.Failed?)
  }

  const NO_PACKET: RtcpPacket := Plain(Header(0, 0, 0, 0, 0))

  method ParsePlainPacket(reader: ByteReader) returns (ok: bool, packet: RtcpPacket)
    requires reader.Valid()
    modifies reader
    ensures Outcome(reader, ok, packet, ParsePlain(reader.bytes, old(reader.start)))
  {
    var header;
    ok, header := ParseCommonHeader(reader);
    packet := Plain(header);
    if ok {
      ok := reader.Consume(4 * header.length);
    }
  }

  method ParseReportBlock(reader: ByteReader) returns (ok: bool, block: ReportBlock)
    requires reader.Valid()
    modifies reader
    ensures reader.Valid() && ok == (old(reader.Left()) >= 24)
    ensures ok ==> reader.start == old(reader.start) + 24 && block == ReportBlockAt(reader.bytes, old(reader.start))
  {
    var a, b, c, d, e, f, g;
    block := ReportBlock(0, 0, 0, 0, 0, 0, 0);
    ok, a := reader.ReadUInt32();
    if !ok { return; }
    ok, b := reader.ReadUInt8();
    if !ok { return; }
    ok, c := reader.ReadUInt24();
    if !ok { return; }
    ok, d := reader.ReadUInt32();
    if !ok { return; }
    ok, e := reader.ReadUInt32();
    if !ok { return; }
    ok, f := reader.ReadUInt32();
    if !ok { return; }
    ok, g := reader.ReadUInt32();
    if !ok { return; }
    block := ReportBlock(a, b, c, d, e, f, g);
  }

  method ParseReceiverReportPacket(reader: ByteReader) returns (ok: bool, packet: RtcpPacket)
    requires reader.Valid()
    modifies reader
    ensures Outcome(reader, ok, packet, ParseReceiverReport(reader.bytes, old(reader.start)))
  {
    ghost var pos := reader.start;
    packet := NO_PACKET;
    hide ReportBlockAt, LoadUInt32BE, LoadUInt16BE;
    var header, senderSsrc, block;
    ok, header := ParseCommonHeader(reader);
    if !ok { return; }
    ok, senderSsrc := reader.ReadUInt32();
    if !ok { return; }
    var blocks := [];
    for i := 0 to header.countOrFormat
      invariant reader.Valid() && reader.start == pos + 8 + 24 * i
      invariant blocks == ReportBlocksAt(reader.bytes, pos + 8, i)
    {
      ok, block := ParseReportBlock(reader);
      if !ok { return; }
      blocks := blocks + [block];
    }
    ok, packet := true, ReceiverReport(header, senderSsrc, blocks);
  }

  /** The body of the item loop: the PID, then one number for each set bit of the BLP. */
  method AppendItem(lost: seq<UInt16>, pid: UInt16, blp: UInt16) returns (r: seq<UInt16>)
    ensures r == lost + ItemNumbers(pid, blp)
  {
    r := lost + [pid];
    var p: UInt16, bitmask: UInt16 := (pid + 1) % TWO_TO_16, blp;
    while bitmask != 0
      invariant r + Expand(p, bitmask) == lost + ItemNumbers(pid, blp)
    {
      if bitmask % 2 == 1 {
        r := r + [p];
      }
      bitmask := bitmask / 2;
      p := (p + 1) % TWO_TO_16;
    }
  }

  /** One pass of the item loop. */
  method ParseItem(reader: ByteReader, lost: seq<UInt16>) returns (ok: bool, r: seq<UInt16>)
    requires reader.Valid()
    modifies reader
    ensures reader.Valid() && ok == (old(reader.Left()) >= 4)
    ensures ok ==>
      && reader.start == old(reader.start) + 4
      && r == lost + ItemNumbers(LoadUInt16BE(reader.bytes, old(reader.start)),
                                 LoadUInt16BE(reader.bytes, old(reader.start) + 2))
  {
    hide ItemNumbers, LoadUInt16BE;
    var pid, blp;
    r := lost;
    ok, pid := reader.ReadUInt16();
    if !ok { return; }
    ok, blp := reader.ReadUInt16();
    if !ok { return; }
    r := AppendItem(lost, pid, blp);
  }

  method ParseNackPacket(reader: ByteReader) returns (ok: bool, packet: RtcpPacket)
    requires reader.Valid()
    modifies reader
    ensures Outcome(reader, ok, packet, ParseNack(reader.bytes, old(reader.start)))
  {
    ghost var pos := reader.start;
    packet := NO_PACKET;
    hide ItemNumbers, LoadUInt16BE, LoadUInt32BE;
    var header, senderSsrc, mediaSsrc;
    ok, header := ParseCommonHeader(reader);
    if !ok { return; }
    ok, senderSsrc := reader.ReadUInt32();
    if !ok { return; }
    ok, mediaSsrc := reader.ReadUInt32();
    if !ok { return; }
    NackItemsUnderflow(header.length);
    var nackItems := (4 * header.length - 8) % TWO_TO_64 / 4;
    var lost: seq<UInt16> := [];
    for index := 0 to nackItems
      invariant reader.Valid() && reader.start == pos + 12 + 4 * index
      invariant lost == LostNumbersAt(reader.bytes, pos + 12, index)
    {
      ok, lost := ParseItem(reader, lost);
      if !ok { return; }
    }
    ok, packet := true, Nack(header, senderSsrc, mediaSsrc, lost);
  }

  /** The dispatch on type and format of RtcpCompound::Parse. */
  method ParsePacket(reader: ByteReader) returns (ok: bool, packet: RtcpPacket)
    requires reader.Valid() && reader.Left() >= 2
    modifies reader
    ensures Outcome(reader, ok, packet, ParseOne(reader.bytes, old(reader.start)))
  {
    var packetType, format := reader.bytes[reader.start + 1], reader.bytes[reader.start] % 0x20;
    if packetType == TYPE_RTPFB {
      if format == 1 {
        ok, packet := ParseNackPacket(reader);
      } else {
        ok, packet := ParsePlainPacket(reader);
      }
    } else if packetType == TYPE_RR {
      ok, packet := ParseReceiverReportPacket(reader);
    } else {
      ok, packet := ParsePlainPacket(reader);
    }
  }

  lemma PrependNothing(rest: Option<seq<RtcpPacket>>)
    ensures Prepend([], rest) == rest
  {
    if rest.Some? {
      assert [] + rest.value == rest.value;
    }
  }

  lemma PrependBoth(a: seq<RtcpPacket>, b: seq<RtcpPacket>, rest: Option<seq<RtcpPacket>>)
    ensures Prepend(a, Prepend(b, rest)) == Prepend(a + b, rest)
  {
    if rest.Some? {
      assert a + (b + rest.value) == (a + b) + rest.value;
    }
  }

  method ParseCompound(data: seq<Byte>) returns (ok: bool, rtcps: seq<RtcpPacket>)
    ensures ok == ParseAll(data, 0).Some?
    ensures ok ==> ParseAll(data, 0) == Some(rtcps)
  {
    var reader := new ByteReader(data);
    rtcps := [];
    ok := true;
    PrependNothing(ParseAll(data, 0));
    while reader.Left() >= 2
      invariant reader.Valid() && reader.bytes == data && ok
      invariant ParseAll(data, 0) == Prepend(rtcps, ParseAll(data, reader.start))
      decreases reader.Left()
    {
      ghost var start := reader.start;
      var packet;
      ok, packet := ParsePacket(reader);
      if !ok {
        return;
      }
      PrependBoth(rtcps, [packet], ParseAll(data, reader.start));
      rtcps := rtcps + [packet];
    }
    assert rtcps + [] == rtcps;
  }

  // ----- sender reports -----

  datatype SenderReport = SenderReport(
    senderSsrc: UInt32, ntpSeconds: UInt32, ntpFractions: UInt32, rtpTimestamp: UInt32,
    sendPacketCount: UInt32, sendOctets: UInt32)

  /** Section 6.4.1 of RFC 3550, without report blocks: 28 bytes, length 6. */
  function SenderReportBytes(r: SenderReport): (b: seq<Byte>)
    ensures |b| == 28
  {
    ([0x80, TYPE_SR] + UInt16Bytes(6)) + (UInt32Bytes(r.senderSsrc)
    + (UInt32Bytes(r.ntpSeconds) + (UInt32Bytes(r.ntpFractions)
    + (UInt32Bytes(r.rtpTimestamp) + (UInt32Bytes(r.sendPacketCount) + UInt32Bytes(r.sendOctets))))))
  }

  method SerializeSenderReport(writer: ByteWriter, r: SenderReport) returns (ok: bool)
    requires writer.Valid()
    modifies writer, writer.bytes
    ensures writer.Valid() && ok == (old(writer.Left()) >= 28)
    ensures ok ==> writer.Written() == old(writer.Written()) + SenderReportBytes(r)
  {
    hide UInt16Bytes, UInt32Bytes;
    ghost var w := writer.Written();
    ok := writer.WriteBytes([0x80, TYPE_SR] + UInt16Bytes(6));
    if !ok { return; }
    ok := writer.WriteUInt32(r.senderSsrc);
    if !ok { return; }
    ok := writer.WriteUInt32(r.ntpSeconds);
    if !ok { return; }
    ok := writer.WriteUInt32(r.ntpFractions);
    if !ok { return; }
    ok := writer.WriteUInt32(r.rtpTimestamp);
    if !ok { return; }
    ok := writer.WriteUInt32(r.sendPacketCount);
    if !ok { return; }
    ok := writer.WriteUInt32(r.sendOctets);
    if !ok { return; }
    SevenParts(w, [0x80, TYPE_SR] + UInt16Bytes(6), UInt32Bytes(r.senderSsrc), UInt32Bytes(r.ntpSeconds),
               UInt32Bytes(r.ntpFractions), UInt32Bytes(r.rtpTimestamp), UInt32Bytes(r.sendPacketCount),
               UInt32Bytes(r.sendOctets));
  }

  lemma SevenParts<T>(o: seq<T>, a: seq<T>, b: seq<T>, c: seq<T>, d: seq<T>, e: seq<T>, f: seq<T>, g: seq<T>)
    ensures o + a + b + c + d + e + f + g == o + (a + (b + (c + (d + (e + (f + g))))))
  {
    Regroup(o + a + b + c + d + e, f, g);
    Regroup(o + a + b + c + d, e, f + g);
    Regroup(o + a + b + c, d, e + (f + g));
    Regroup(o + a + b, c, d + (e + (f + g)));
    Regroup(o + a, b, c + (d + (e + (f + g))));
    Regroup(o, a, b + (c + (d + (e + (f + g)))));
  }
}
