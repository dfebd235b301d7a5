/** rtp_packet.cpp: the fixed RTP header and the H.264 packetizer. */
module RtpPacketizer {
  import opened Bytes
  import opened AnnexB

  const MAX_RTP_PAYLOAD_SIZE: nat := 1200
  const RTP_HEADER_FIXED_SIZE: nat := 12
  const RTP_BUFFER_SIZE: nat := 5000
  const FU_A: Byte := 28
  const FU_START: Byte := 0x80
  const FU_END: Byte := 0x40

  /** A generated packet: what the listener is handed, with the bytes it can read. */
  datatype RtpPacket = RtpPacket(
    ssrc: UInt32, sequenceNumber: UInt16, timestamp: UInt32, headerOffset: nat, data: seq<Byte>)

  /** The fields of a packetizer that never change. */
  datatype Config = Config(ssrc: UInt32, payloadType: Byte)

  // ----- specification -----

  /** The twelve bytes of section 5.1 of RFC 3550: version 2, no padding, extension or CSRCs. */
  function Header(c: Config, marker: Byte, seqnum: UInt16, timestamp: UInt32): (r: seq<Byte>)
    ensures |r| == RTP_HEADER_FIXED_SIZE
  {
    [0x80, c.payloadType % 0x80 + marker % 2 * 0x80]
    + (UInt16Bytes(seqnum) + (UInt32Bytes(timestamp) + UInt32Bytes(c.ssrc)))
  }

  function Packet(c: Config, marker: Byte, seqnum: UInt16, timestamp: UInt32, payload: seq<Byte>): RtpPacket {
    RtpPacket(c.ssrc, seqnum, timestamp, RTP_HEADER_FIXED_SIZE, Header(c, marker, seqnum, timestamp) + payload)
  }

  /** The payloads in consecutively numbered packets; the last one carries the given marker. */
  function Numbered(
      c: Config, payloads: seq<seq<Byte>>, seqnum: UInt16, timestamp: UInt32, marker: Byte): (r: seq<RtpPacket>)
    ensures |r| == |payloads|
    ensures forall k :: 0 <= k < |payloads| ==>
      r[k] == Packet(c, if k == |payloads| - 1 then marker else 0, Next(seqnum, k), timestamp, payloads[k])
  {
    seq(|payloads|, k requires 0 <= k < |payloads| =>
      Packet(c, if k == |payloads| - 1 then marker else 0, Next(seqnum, k), timestamp, payloads[k]))
  }

  /** FU indicator: the F and NRI bits of the NALU header with type 28. */
  function FuIndicator(naluHeader: Byte): Byte {
    naluHeader - naluHeader % 0x20 + FU_A
  }

  function FuHeader(naluHeader: Byte, start: bool, end: bool): Byte {
    naluHeader % 0x20 + (if start then FU_START else 0) + (if end then FU_END else 0)
  }

  /** The FU-A payloads that carry the rest of a NALU. */
  function Fragments(naluHeader: Byte, rest: seq<Byte>, start: bool): (r: seq<seq<Byte>>)
    ensures r != []
  {
    if |rest| <= MAX_RTP_PAYLOAD_SIZE - 2 then
      [[FuIndicator(naluHeader), FuHeader(naluHeader, start, true)] + rest]
    else
      [[FuIndicator(naluHeader), FuHeader(naluHeader, start, false)] + rest[..MAX_RTP_PAYLOAD_SIZE - 2]]
      + Fragments(naluHeader, rest[MAX_RTP_PAYLOAD_SIZE - 2..], false)
  }

  function NaluPayloads(nalu: seq<Byte>): (r: seq<seq<Byte>>)
    ensures r != []
  {
    if |nalu| <= MAX_RTP_PAYLOAD_SIZE then [nalu] else Fragments(nalu[0], nalu[1..], true)
  }

  function FramePayloads(units: seq<Unit>): (r: seq<seq<Byte>>)
    ensures r == [] <==> units == []
  {
    if units == [] then []
    else
      var last := |units| - 1;
      FramePayloads(units[..last]) + NaluPayloads(units[last].nalu)
  }

  /** What one call of Pack generates. */
  function FramePackets(c: Config, frame: seq<Byte>, seqnum: UInt16, timestamp: UInt32): seq<RtpPacket> {
    Numbered(c, FramePayloads(ParsedUnits(frame)), seqnum, timestamp, 1)
  }

  lemma NumberedSplit(
      c: Config, p: seq<seq<Byte>>, q: seq<seq<Byte>>, seqnum: UInt16, timestamp: UInt32, marker: Byte)
    ensures Numbered(c, p + q, seqnum, timestamp, marker) ==
            Numbered(c, p, seqnum, timestamp, if q == [] then marker else 0)
            + Numbered(c, q, Next(seqnum, |p|), timestamp, marker)
  {
    forall k | |p| <= k < |p + q|
      ensures Next(Next(seqnum, |p|), k - |p|) == Next(seqnum, k)
    {
      NextNext(seqnum, |p|, k - |p|);
    }
  }

  /** Between two generator states the given payloads were sent, the last with the given marker. */
  ghost predicate Sent(c: Config, before: seq<RtpPacket>, after: seq<RtpPacket>, from: UInt16, to: UInt16,
                       payloads: seq<seq<Byte>>, timestamp: UInt32, marker: Byte)
  {
    && to == Next(from, |payloads|)
    && after == before + Numbered(c, payloads, from, timestamp, marker)
  }

  lemma SentBoth(c: Config, g0: seq<RtpPacket>, g1: seq<RtpPacket>, g2: seq<RtpPacket>,
                 s0: UInt16, s1: UInt16, s2: UInt16,
                 p: seq<seq<Byte>>, q: seq<seq<Byte>>, timestamp: UInt32, marker: Byte)
    requires Sent(c, g0, g1, s0, s1, p, timestamp, 0) && Sent(c, g1, g2, s1, s2, q, timestamp, marker)
    requires q != []
    ensures Sent(c, g0, g2, s0, s2, p + q, timestamp, marker)
  {
    hide Numbered, Packet, Next;
    NextNext(s0, |p|, |q|);
    NumberedSplit(c, p, q, s0, timestamp, marker);
  }

  lemma NothingSent(c: Config, g: seq<RtpPacket>, s: UInt16, units: seq<Unit>, timestamp: UInt32, marker: Byte)
    ensures Sent(c, g, g, s, s, FramePayloads(units[..0]), timestamp, marker)
  {
  }

  lemma WhatWasSent(c: Config, g0: seq<RtpPacket>, g1: seq<RtpPacket>, s0: UInt16, s1: UInt16,
                    payloads: seq<seq<Byte>>, timestamp: UInt32, marker: Byte)
    requires Sent(c, g0, g1, s0, s1, payloads, timestamp, marker)
    ensures s1 == Next(s0, |payloads|) && g1 == g0 + Numbered(c, payloads, s0, timestamp, marker)
  {
  }

  // ----- the header overlay on the packet buffer: FixedRtpHeader -----

  /** Only the given byte of the buffer has changed. */
  twostate predicate OnlyByte(buf: array<Byte>, at: nat)
    reads buf
  {
    forall i :: 0 <= i < buf.Length && i != at ==> buf[i] == old(buf[i])
  }

  method SetCC(buf: array<Byte>, cc: Byte)
    requires buf.Length >= RTP_HEADER_FIXED_SIZE
    modifies buf
    ensures buf[0] == old(buf[0]) - old(buf[0]) % 0x10 + cc % 0x10 && OnlyByte(buf, 0)
  {
    buf[0] := buf[0] - buf[0] % 0x10 + cc % 0x10;
  }

  method SetHasExtension(buf: array<Byte>, hasExtension: Byte)
    requires buf.Length >= RTP_HEADER_FIXED_SIZE
    modifies buf
    ensures buf[0] == old(buf[0]) - old(buf[0]) / 0x10 % 2 * 0x10 + hasExtension % 2 * 0x10 && OnlyByte(buf, 0)
  {
    buf[0] := buf[0] - buf[0] / 0x10 % 2 * 0x10 + hasExtension % 2 * 0x10;
  }

  method SetPadding(buf: array<Byte>, padding: Byte)
    requires buf.Length >= RTP_HEADER_FIXED_SIZE
    modifies buf
    ensures buf[0] == old(buf[0]) - old(buf[0]) / 0x20 % 2 * 0x20 + padding % 2 * 0x20 && OnlyByte(buf, 0)
  {
    buf[0] := buf[0] - buf[0] / 0x20 % 2 * 0x20 + padding % 2 * 0x20;
  }

  method SetVersion(buf: array<Byte>, version: Byte)
    requires buf.Length >= RTP_HEADER_FIXED_SIZE
    modifies buf
    ensures buf[0] == old(buf[0]) % 0x40 + version % 4 * 0x40 && OnlyByte(buf, 0)
  {
    buf[0] := buf[0] % 0x40 + version % 4 * 0x40;
  }

  method SetPayloadType(buf: array<Byte>, payloadType: Byte)
    requires buf.Length >= RTP_HEADER_FIXED_SIZE
    modifies buf
    ensures buf[1] == old(buf[1]) - old(buf[1]) % 0x80 + payloadType % 0x80 && OnlyByte(buf, 1)
  {
    buf[1] := buf[1] - buf[1] % 0x80 + payloadType % 0x80;
  }

  method SetMarker(buf: array<Byte>, marker: Byte)
    requires buf.Length >= RTP_HEADER_FIXED_SIZE
    modifies buf
    ensures buf[1] == old(buf[1]) % 0x80 + marker % 2 * 0x80 && OnlyByte(buf, 1)
  {
    buf[1] := buf[1] % 0x80 + marker % 2 * 0x80;
  }

  method SetSeqNum(buf: array<Byte>, seqnum: UInt16)
    requires buf.Length >= RTP_HEADER_FIXED_SIZE
    modifies buf
    ensures buf[..] == Overwrite(old(buf[..]), 2, UInt16Bytes(seqnum))
  {
    StoreUInt16BE(buf, 2, seqnum);
  }

  method SetTimestamp(buf: array<Byte>, timestamp: UInt32)
    requires buf.Length >= RTP_HEADER_FIXED_SIZE
    modifies buf
    ensures buf[..] == Overwrite(old(buf[..]), 4, UInt32Bytes(timestamp))
  {
    StoreUInt32BE(buf, 4, timestamp);
  }

  method SetSSrc(buf: array<Byte>, ssrc: UInt32)
    requires buf.Length >= RTP_HEADER_FIXED_SIZE
    modifies buf
    ensures buf[..] == Overwrite(old(buf[..]), 8, UInt32Bytes(ssrc))
  {
    StoreUInt32BE(buf, 8, ssrc);
  }

  // ----- the packetizer -----

  lemma HeaderWords(b: seq<Byte>, c: Config, marker: Byte, seqnum: UInt16, timestamp: UInt32)
    requires |b| >= RTP_HEADER_FIXED_SIZE
    requires b[0] == 0x80 && b[1] == c.payloadType % 0x80 + marker % 2 * 0x80
    requires b[2..4] == UInt16Bytes(seqnum) && b[4..8] == UInt32Bytes(timestamp) && b[8..12] == UInt32Bytes(c.ssrc)
    ensures b[..12] == Header(c, marker, seqnum, timestamp)
  {
    assert b[..12] == b[..2] + (b[2..4] + (b[4..8] + b[8..12]));
    assert b[..2] == [b[0], b[1]];
  }

  /** The buffer holds a packet: its header, then its payload. */
  lemma PacketComplete(b: seq<Byte>, c: Config, marker: Byte, seqnum: UInt16, timestamp: UInt32, payload: seq<Byte>)
    requires |b| >= RTP_HEADER_FIXED_SIZE + |payload|
    requires b[..12] == Header(c, marker, seqnum, timestamp) && b[12..12 + |payload|] == payload
    ensures [RtpPacket(c.ssrc, seqnum, timestamp, RTP_HEADER_FIXED_SIZE, b[..12 + |payload|])]
            == Numbered(c, [payload], seqnum, timestamp, marker)
  {
    var data := b[..12 + |payload|];
    assert data == b[..12] + b[12..12 + |payload|];
    assert data == Header(c, marker, seqnum, timestamp) + payload;
    var n := Numbered(c, [payload], seqnum, timestamp, marker);
    assert n == [n[0]];
  }

  class H264RtpPacketizer {
    const config: Config
    var seqnum: UInt16
    var frameEndMarker: Byte
    const rtpBuf: array<Byte>
    /** The packets handed to the listener so far, in order. */
    var generated: seq<RtpPacket>

    ghost predicate Valid()
      reads this
    {
      rtpBuf.Length == RTP_BUFFER_SIZE
    }

    constructor (ssrc: UInt32, payloadType: Byte)
      ensures Valid() && fresh(rtpBuf)
      ensures config == Config(ssrc, payloadType) && seqnum == 0 && generated == []
    {
      config := Config(ssrc, payloadType);
      seqnum := 0;
      frameEndMarker := 0;
      rtpBuf := new Byte[RTP_BUFFER_SIZE];
      generated := [];
    }

    /** The setters every packet goes through. */
    method PutHeader(marker: Byte, timestamp: UInt32)
      requires Valid()
      modifies rtpBuf, `seqnum
      ensures seqnum == Next(old(seqnum), 1)
      ensures rtpBuf[..12] == Header(config, marker, old(seqnum), timestamp)
    {
      hide UInt16Bytes, UInt32Bytes, Header;
      SetPayloadType(rtpBuf, config.payloadType);
      assert rtpBuf[1] % 0x80 == config.payloadType % 0x80;
      PutWords(timestamp);
      SetMarker(rtpBuf, marker);
      assert rtpBuf[1] == config.payloadType % 0x80 + marker % 2 * 0x80;
      PutFlags();
      HeaderWords(rtpBuf[..], config, marker, old(seqnum), timestamp);
    }

    method PutWords(timestamp: UInt32)
      requires Valid()
      modifies rtpBuf, `seqnum
      ensures seqnum == Next(old(seqnum), 1)
      ensures rtpBuf[0] == old(rtpBuf[0]) && rtpBuf[1] == old(rtpBuf[1])
      ensures rtpBuf[2..4] == UInt16Bytes(old(seqnum))
      ensures rtpBuf[4..8] == UInt32Bytes(timestamp) && rtpBuf[8..12] == UInt32Bytes(config.ssrc)
    {
      SetSSrc(rtpBuf, config.ssrc);
      SetTimestamp(rtpBuf, timestamp);
      SetSeqNum(rtpBuf, seqnum);
      seqnum := (seqnum + 1) % TWO_TO_16;
    }

    method PutFlags()
      requires Valid()
      modifies rtpBuf
      ensures rtpBuf[0] == 0x80 && OnlyByte(rtpBuf, 0)
    {
      SetVersion(rtpBuf, 2);
      SetCC(rtpBuf, 0);
      assert rtpBuf[0] in {0x80, 0x90, 0xA0, 0xB0};
      SetHasExtension(rtpBuf, 0);
      assert rtpBuf[0] in {0x80, 0xA0};
      SetPadding(rtpBuf, 0);
    }

    /** Hands the first `size` bytes of the buffer to the listener. */
    method Emit(size: nat, timestamp: UInt32)
      requires Valid() && size <= RTP_BUFFER_SIZE
      modifies `generated
      ensures generated == old(generated)
              + [RtpPacket(config.ssrc, Next(seqnum, 0xFFFF), timestamp, RTP_HEADER_FIXED_SIZE, rtpBuf[..size])]
    {
      generated := generated
        + [RtpPacket(config.ssrc, (seqnum + TWO_TO_16 - 1) % TWO_TO_16, timestamp,
                     RTP_HEADER_FIXED_SIZE, rtpBuf[..size])];
    }

    method PackSingNalu(data: seq<Byte>, timestamp: UInt32)
      requires Valid() && |data| <= MAX_RTP_PAYLOAD_SIZE
      modifies rtpBuf, `seqnum, `generated
      ensures Sent(config, old(generated), generated, old(seqnum), seqnum, [data], timestamp, frameEndMarker)
    {
      PutHeader(frameEndMarker, timestamp);
      CopyInto(rtpBuf, RTP_HEADER_FIXED_SIZE, data);
      PacketComplete(rtpBuf[..], config, frameEndMarker, old(seqnum), timestamp, data);
      Emit(RTP_HEADER_FIXED_SIZE + |data|, timestamp);
    }

    /** One FU-A packet: header, FU indicator, FU header and a piece of the NALU. */
    method PackFragment(fuIndicate: Byte, fuHeader: Byte, marker: Byte, piece: seq<Byte>, timestamp: UInt32)
      requires Valid() && |piece| <= MAX_RTP_PAYLOAD_SIZE - 2
      modifies rtpBuf, `seqnum, `generated
      ensures Sent(config, old(generated), generated, old(seqnum), seqnum,
                   [[fuIndicate, fuHeader] + piece], timestamp, marker)
    {
      hide Numbered, Header;
      PutHeader(marker, timestamp);
      rtpBuf[RTP_HEADER_FIXED_SIZE] := fuIndicate;
      rtpBuf[RTP_HEADER_FIXED_SIZE + 1] := fuHeader;
      ghost var b := rtpBuf[..12];
      CopyInto(rtpBuf, RTP_HEADER_FIXED_SIZE + 2, piece);
      assert rtpBuf[..12] == b;
      assert rtpBuf[12..14 + |piece|] == [fuIndicate, fuHeader] + piece;
      PacketComplete(rtpBuf[..], config, marker, old(seqnum), timestamp, [fuIndicate, fuHeader] + piece);
      Emit(RTP_HEADER_FIXED_SIZE + 2 + |piece|, timestamp);
    }

    /** The FU-A fragmentation loop of a NALU that is too large for one packet. */
    method PackFuA(data: seq<Byte>, timestamp: UInt32)
      requires Valid() && |data| > MAX_RTP_PAYLOAD_SIZE
      modifies rtpBuf, `seqnum, `generated
      ensures Sent(config, old(generated), generated, old(seqnum), seqnum,
                   NaluPayloads(data), timestamp, frameEndMarker)
    {
      hide FuState, Sent, Cut, Fragments, NaluPayloads, Numbered, Next;
      var start, end := true, false;
      var naluHeader := data[0];
      var fuIndicate := FU_A + (naluHeader - naluHeader % 0x20);
      var at, size := 1, |data| - 1;
      ghost var done: seq<seq<Byte>> := [];
      FuStart(config, generated, seqnum, timestamp, frameEndMarker, data);
      while !end
        invariant 1 <= at <= |data| && size == |data| - at
        invariant end ==> size == 0
        invariant FuState(config, old(generated), generated, old(seqnum), seqnum, timestamp, frameEndMarker,
                          data, done, at, start, end)
        decreases if end then 0 else 1, size
      {
        if size <= MAX_RTP_PAYLOAD_SIZE - 2 {
          end := true;
        }
        var fuHeader := naluHeader % 0x20;
        var dataLen, marker := MAX_RTP_PAYLOAD_SIZE - 2, 0;
        ghost var first, g, s := start, generated, seqnum;
        if start {
          fuHeader := fuHeader + FU_START;
          start := false;
        }
        if end {
          fuHeader := fuHeader + FU_END;
          dataLen, marker := size, frameEndMarker;
        }
        ghost var cut := if end then |data| else at + MAX_RTP_PAYLOAD_SIZE - 2;
        assert fuIndicate == FuIndicator(data[0]) && fuHeader == FuHeader(data[0], first, end);
        assert at + dataLen == cut && marker == if end then frameEndMarker else 0;
        PackFragment(fuIndicate, fuHeader, marker, data[at..at + dataLen], timestamp);
        FuStep(config, old(generated), g, generated, old(seqnum), s, seqnum, timestamp, frameEndMarker,
               data, done, at, first, end);
        done := done + [FuPayload(data, at, cut, first, end)];
        at := at + dataLen;
        size := size - dataLen;
      }
      FuDone(config, old(generated), generated, old(seqnum), seqnum, timestamp, frameEndMarker, data, done, at, start);
    }

    /** Packs one Annex B frame; the marker goes to the last packet of its last NALU. */
    method Pack(frame: seq<Byte>, timestamp: UInt32)
      requires Valid()
      modifies rtpBuf, `seqnum, `generated, `frameEndMarker
      ensures seqnum == Next(old(seqnum), |FramePayloads(ParsedUnits(frame))|)
      ensures generated == old(generated) + FramePackets(config, frame, old(seqnum), timestamp)
    {
      hide Sent, Numbered, FramePayloads;
      var nalus := ParseNaluPositions(frame);
      ghost var units := ParsedUnits(frame);
      PositionsOfUnits(frame);
      frameEndMarker := 0;
      NothingSent(config, generated, seqnum, units, timestamp, if nalus == [] then 1 else 0);
      for i := 0 to |nalus|
        invariant i < |nalus| ==> frameEndMarker == 0
        invariant Sent(config, old(generated), generated, old(seqnum), seqnum,
                       FramePayloads(units[..i]), timestamp, if i == |nalus| then 1 else 0)
      {
        if |nalus| - i == 1 {
          frameEndMarker := 1;
        }
        var nalu := frame[nalus[i].start..nalus[i].start + nalus[i].length];
        assert NaluAt(frame, nalus[i], units[i].nalu);
        ghost var g, s := generated, seqnum;
        if nalus[i].length <= MAX_RTP_PAYLOAD_SIZE {
          PackSingNalu(nalu, timestamp);
        } else {
          PackFuA(nalu, timestamp);
        }
        FramePayloadsTaken(units, i);
        SentBoth(config, old(generated), g, generated, old(seqnum), s, seqnum,
                 FramePayloads(units[..i]), NaluPayloads(nalu), timestamp, frameEndMarker);
      }
      assert units[..|nalus|] == units;
      WhatWasSent(config, old(generated), generated, old(seqnum), seqnum, FramePayloads(units), timestamp, 1);
    }
  }

  /** The FU-A payload that carries data[at..cut]. */
  function FuPayload(data: seq<Byte>, at: nat, cut: nat, start: bool, end: bool): seq<Byte>
    requires at <= cut <= |data| && data != []
  {
    [FuIndicator(data[0]), FuHeader(data[0], start, end)] + data[at..cut]
  }

  /** The fragments done and those still to come make up the NALU's payloads. */
  ghost predicate Cut(data: seq<Byte>, done: seq<seq<Byte>>, at: nat, start: bool, end: bool)
    requires |data| > MAX_RTP_PAYLOAD_SIZE && at <= |data|
  {
    NaluPayloads(data) == done + (if end then [] else Fragments(data[0], data[at..], start))
  }

  lemma CutStep(data: seq<Byte>, done: seq<seq<Byte>>, at: nat, start: bool, end: bool)
    requires |data| > MAX_RTP_PAYLOAD_SIZE && at <= |data| && Cut(data, done, at, start, false)
    requires end <==> |data| - at <= MAX_RTP_PAYLOAD_SIZE - 2
    ensures var cut := if end then |data| else at + MAX_RTP_PAYLOAD_SIZE - 2;
            Cut(data, done + [FuPayload(data, at, cut, start, end)], cut, false, end)
  {
    var rest := Fragments(data[0], data[at..], start);
    if end {
      assert data[at..|data|] == data[at..];
      assert rest == [FuPayload(data, at, |data|, start, end)];
    } else {
      var cut := at + MAX_RTP_PAYLOAD_SIZE - 2;
      assert data[at..][..cut - at] == data[at..cut] && data[at..][cut - at..] == data[cut..];
      assert rest == [FuPayload(data, at, cut, start, end)] + Fragments(data[0], data[cut..], false);
    }
  }

  /** The state of the fragmentation loop: `done` has been sent. */
  ghost predicate FuState(c: Config, g0: seq<RtpPacket>, g: seq<RtpPacket>, s0: UInt16, s: UInt16,
                          timestamp: UInt32, marker: Byte,
                          data: seq<Byte>, done: seq<seq<Byte>>, at: nat, start: bool, end: bool)
    requires |data| > MAX_RTP_PAYLOAD_SIZE && at <= |data|
  {
    && Cut(data, done, at, start, end)
    && Sent(c, g0, g, s0, s, done, timestamp, if end then marker else 0)
  }

  lemma FuStart(c: Config, g: seq<RtpPacket>, s: UInt16, timestamp: UInt32, marker: Byte, data: seq<Byte>)
    requires |data| > MAX_RTP_PAYLOAD_SIZE
    ensures FuState(c, g, g, s, s, timestamp, marker, data, [], 1, true, false)
  {
    var rest := Fragments(data[0], data[1..], true);
    assert [] + rest == rest;
  }

  lemma FuDone(c: Config, g0: seq<RtpPacket>, g: seq<RtpPacket>, s0: UInt16, s: UInt16,
               timestamp: UInt32, marker: Byte, data: seq<Byte>, done: seq<seq<Byte>>, at: nat, start: bool)
    requires |data| > MAX_RTP_PAYLOAD_SIZE && at <= |data|
    requires FuState(c, g0, g, s0, s, timestamp, marker, data, done, at, start, true)
    ensures Sent(c, g0, g, s0, s, NaluPayloads(data), timestamp, marker)
  {
    assert NaluPayloads(data) == done;
  }

  lemma FuStep(c: Config, g0: seq<RtpPacket>, g: seq<RtpPacket>, g': seq<RtpPacket>,
               s0: UInt16, s: UInt16, s': UInt16, timestamp: UInt32, marker: Byte,
               data: seq<Byte>, done: seq<seq<Byte>>, at: nat, start: bool, end: bool)
    requires |data| > MAX_RTP_PAYLOAD_SIZE && at <= |data|
    requires FuState(c, g0, g, s0, s, timestamp, marker, data, done, at, start, false)
    requires end <==> |data| - at <= MAX_RTP_PAYLOAD_SIZE - 2
    requires var cut := if end then |data| else at + MAX_RTP_PAYLOAD_SIZE - 2;
             Sent(c, g, g', s, s', [FuPayload(data, at, cut, start, end)], timestamp, if end then marker else 0)
    ensures var cut := if end then |data| else at + MAX_RTP_PAYLOAD_SIZE - 2;
            FuState(c, g0, g', s0, s', timestamp, marker, data,
                    done + [FuPayload(data, at, cut, start, end)], cut, false, end)
  {
    var cut := if end then |data| else at + MAX_RTP_PAYLOAD_SIZE - 2;
    CutStep(data, done, at, start, end);
    SentBoth(c, g0, g, g', s0, s, s', done, [FuPayload(data, at, cut, start, end)], timestamp,
             if end then marker else 0);
  }

  lemma FramePayloadsTaken(units: seq<Unit>, i: nat)
    requires i < |units|
    ensures FramePayloads(units[..i + 1]) == FramePayloads(units[..i]) + NaluPayloads(units[i].nalu)
  {
    assert units[..i + 1][..i] == units[..i];
  }
}
