/** An RTP receiver for H.264 written from RFC 3550 and RFC 6184, and the proof that it
    recovers what the packetizer was given. */
module Depacketizer {
  import opened Bytes
  import opened AnnexB
  import opened RtpPacketizer

  /** The fields of an RTP packet without padding, extension or CSRCs
      (section 5.1 of RFC 3550). */
  datatype Rtp = Rtp(marker: bool, payloadType: Byte, sequenceNumber: UInt16, timestamp: UInt32,
                     ssrc: UInt32, payload: seq<Byte>)

  function ParseRtp(data: seq<Byte>): Option<Rtp> {
    if |data| < 12 || data[0] != 0x80 then None
    else Some(Rtp(data[1] >= 0x80, data[1] % 0x80, LoadUInt16BE(data, 2), LoadUInt32BE(data, 4),
                  LoadUInt32BE(data, 8), data[12..]))
  }

  /** The frames received, the NALUs of the frame under way, and the fragmented NALU under way. */
  datatype Receiver = Receiver(frames: seq<seq<seq<Byte>>>, nalus: seq<seq<Byte>>, partial: Option<seq<Byte>>)

  const EMPTY: Receiver := Receiver([], [], None)

  function NalType(b: Byte): Byte { b % 0x20 }

  /** Sections 5.6 (single NAL unit packet) and 5.8 (FU-A) of RFC 6184; other payloads are skipped. */
  function ReceivePayload(r: Receiver, payload: seq<Byte>): Receiver {
    if payload != [] && 1 <= NalType(payload[0]) <= 23 then
      r.(nalus := r.nalus + [payload], partial := None)
    else if |payload| >= 2 && NalType(payload[0]) == 28 then
      var start, end := payload[1] / 0x80 == 1, payload[1] / 0x40 % 2 == 1;
      var header := payload[0] - NalType(payload[0]) + NalType(payload[1]);
      var partial := if start then Some([header] + payload[2..])
                     else if r.partial.Some? then Some(r.partial.value + payload[2..])
                     else None;
      if end && partial.Some? then
        r.(nalus := r.nalus + [partial.value], partial := None)
      else r.(partial := partial)
    else r
  }

  /** The marker bit ends a frame (section 5.1 of RFC 6184). */
  function Receive(r: Receiver, data: seq<Byte>): Receiver {
    var rtp := ParseRtp(data);
    if rtp.None? then r
    else
      var r' := ReceivePayload(r, rtp.value.payload);
      if rtp.value.marker then r'.(frames := r'.frames + [r'.nalus], nalus := []) else r'
  }

  function ReceiveAll(r: Receiver, packets: seq<RtpPacket>): Receiver {
    if packets == [] then r
    else
      var last := |packets| - 1;
      Receive(ReceiveAll(r, packets[..last]), packets[last].data)
  }

  lemma {:induction false} ReceiveInParts(r: Receiver, p: seq<RtpPacket>, q: seq<RtpPacket>)
    ensures ReceiveAll(r, p + q) == ReceiveAll(ReceiveAll(r, p), q)
    decreases |q|
  {
    if q == [] {
      assert p + q == p;
    } else {
      var last := |q| - 1;
      assert (p + q)[..|p + q| - 1] == p + q[..last];
      ReceiveInParts(r, p, q[..last]);
    }
  }

  /** Parsing a generated packet gives back every field the packetizer filled in. */
  lemma ParseOfPacket(c: Config, marker: Byte, seqnum: UInt16, timestamp: UInt32, payload: seq<Byte>)
    ensures ParseRtp(Packet(c, marker, seqnum, timestamp, payload).data)
            == Some(Rtp(marker % 2 == 1, c.payloadType % 0x80, seqnum, timestamp, c.ssrc, payload))
  {
    var h := Header(c, marker, seqnum, timestamp);
    var data := h + payload;
    assert data[12..] == payload;
    assert h[2..4] == UInt16Bytes(seqnum) && h[4..8] == UInt32Bytes(timestamp) && h[8..12] == UInt32Bytes(c.ssrc);
    SameLoads(data, h, seqnum, timestamp, c.ssrc);
  }

  lemma SameLoads(data: seq<Byte>, h: seq<Byte>, a: UInt16, b: UInt32, d: UInt32)
    requires |h| == 12 && h <= data
    requires h[2..4] == UInt16Bytes(a) && h[4..8] == UInt32Bytes(b) && h[8..12] == UInt32Bytes(d)
    ensures LoadUInt16BE(data, 2) == a && LoadUInt32BE(data, 4) == b && LoadUInt32BE(data, 8) == d
  {
    LoadOfBytes16(data, 2, a);
    LoadOfBytes32(data, 4, b);
    LoadOfBytes32(data, 8, d);
  }

  // ----- payload by payload -----

  function ReceivePayloads(r: Receiver, payloads: seq<seq<Byte>>): Receiver {
    if payloads == [] then r
    else
      var last := |payloads| - 1;
      ReceivePayload(ReceivePayloads(r, payloads[..last]), payloads[last])
  }

  lemma {:induction false} PayloadsInParts(r: Receiver, p: seq<seq<Byte>>, q: seq<seq<Byte>>)
    ensures ReceivePayloads(r, p + q) == ReceivePayloads(ReceivePayloads(r, p), q)
    decreases |q|
  {
    if q == [] {
      assert p + q == p;
    } else {
      var last := |q| - 1;
      assert (p + q)[..|p + q| - 1] == p + q[..last];
      PayloadsInParts(r, p, q[..last]);
    }
  }

  function EndFrame(r: Receiver, marker: Byte): Receiver {
    if marker % 2 == 1 then r.(frames := r.frames + [r.nalus], nalus := []) else r
  }

  /** The marker of a numbered list of payloads takes effect once, after the last of them. */
  lemma {:induction false} ReceiveNumbered(
      r: Receiver, c: Config, payloads: seq<seq<Byte>>, seqnum: UInt16, timestamp: UInt32, marker: Byte)
    requires payloads != []
    ensures ReceiveAll(r, Numbered(c, payloads, seqnum, timestamp, marker))
            == EndFrame(ReceivePayloads(r, payloads), marker)
    decreases |payloads|
  {
    var last := |payloads| - 1;
    var front := payloads[..last];
    var n := Next(seqnum, last);
    assert payloads == front + [payloads[last]];
    NumberedSplit(c, front, [payloads[last]], seqnum, timestamp, marker);
    var packets := Numbered(c, payloads, seqnum, timestamp, marker);
    assert packets[..last] == Numbered(c, front, seqnum, timestamp, 0);
    assert packets[last] == Packet(c, marker, n, timestamp, payloads[last]);
    ParseOfPacket(c, marker, n, timestamp, payloads[last]);
    if front != [] {
      ReceiveNumbered(r, c, front, seqnum, timestamp, 0);
    }
  }

  // ----- NALU by NALU -----

  /** A NALU that may travel as such: type 1 to 23. */
  predicate GoodNalu(nalu: seq<Byte>) {
    nalu != [] && 1 <= NalType(nalu[0]) <= 23
  }

  /** The NALU header and the two flags can be read back from the two FU bytes. */
  lemma FuBytes(h: Byte, start: bool, end: bool)
    ensures var i, f := FuIndicator(h), FuHeader(h, start, end);
            && NalType(i) == 28 && i - NalType(i) + NalType(f) == h
            && (f / 0x80 == 1 <==> start) && (f / 0x40 % 2 == 1 <==> end)
  {
  }

  lemma ReceiveFragment(r: Receiver, h: Byte, start: bool, end: bool, piece: seq<Byte>, acc: seq<Byte>)
    requires start || r.partial == Some(acc)
    ensures ReceivePayload(r, [FuIndicator(h), FuHeader(h, start, end)] + piece) ==
            var whole := (if start then [h] else acc) + piece;
            if end then r.(nalus := r.nalus + [whole], partial := None) else r.(partial := Some(whole))
  {
    FuBytes(h, start, end);
    hide FuIndicator, FuHeader, NalType;
    var payload := [FuIndicator(h), FuHeader(h, start, end)] + piece;
    assert payload[2..] == piece;
  }

  lemma {:induction false} ReceiveFragments(r: Receiver, h: Byte, rest: seq<Byte>, start: bool, acc: seq<Byte>)
    requires start || r.partial == Some(acc)
    ensures ReceivePayloads(r, Fragments(h, rest, start))
            == r.(nalus := r.nalus + [(if start then [h] else acc) + rest], partial := None)
    decreases |rest|
  {
    var cut := MAX_RTP_PAYLOAD_SIZE - 2;
    var end := |rest| <= cut;
    var piece := if end then rest else rest[..cut];
    var first := [[FuIndicator(h), FuHeader(h, start, end)] + piece];
    ReceiveFragment(r, h, start, end, piece, acc);
    assert first[..0] == [];
    if !end {
      var acc' := (if start then [h] else acc) + piece;
      PayloadsInParts(r, first, Fragments(h, rest[cut..], false));
      ReceiveFragments(r.(partial := Some(acc')), h, rest[cut..], false, acc');
      assert acc' + rest[cut..] == (if start then [h] else acc) + rest;
    }
  }

  lemma ReceiveNalu(r: Receiver, nalu: seq<Byte>)
    requires GoodNalu(nalu)
    ensures ReceivePayloads(r, NaluPayloads(nalu)) == r.(nalus := r.nalus + [nalu], partial := None)
  {
    if |nalu| <= MAX_RTP_PAYLOAD_SIZE {
      assert [nalu][..0] == [];
    } else {
      ReceiveFragments(r, nalu[0], nalu[1..], true, []);
      assert [nalu[0]] + nalu[1..] == nalu;
    }
  }

  // ----- frame by frame -----

  function Nalus(units: seq<Unit>): (r: seq<seq<Byte>>)
    ensures |r| == |units| && forall k :: 0 <= k < |units| ==> r[k] == units[k].nalu
  {
    seq(|units|, k requires 0 <= k < |units| => units[k].nalu)
  }

  ghost predicate GoodUnits(units: seq<Unit>) {
    forall k :: 0 <= k < |units| ==> GoodNalu(units[k].nalu)
  }

  lemma NalusSnoc(units: seq<Unit>)
    requires units != []
    ensures Nalus(units) == Nalus(units[..|units| - 1]) + [units[|units| - 1].nalu]
  {
  }

  lemma {:induction false} ReceiveUnits(r: Receiver, units: seq<Unit>)
    requires GoodUnits(units) && r.partial == None
    ensures ReceivePayloads(r, FramePayloads(units)) == r.(nalus := r.nalus + Nalus(units))
    decreases |units|
  {
    if units == [] {
      assert r.nalus + Nalus(units) == r.nalus;
    } else {
      var last := |units| - 1;
      var front := units[..last];
      ReceiveUnits(r, front);
      PayloadsInParts(r, FramePayloads(front), NaluPayloads(units[last].nalu));
      var r' := r.(nalus := r.nalus + Nalus(front));
      ReceiveNalu(r', units[last].nalu);
      NalusSnoc(units);
      assert r.nalus + Nalus(units) == r'.nalus + [units[last].nalu];
    }
  }

  lemma EndOfUnits(r: Receiver, units: seq<Unit>)
    requires GoodUnits(units) && r.partial == None && r.nalus == []
    ensures EndFrame(ReceivePayloads(r, FramePayloads(units)), 1) == r.(frames := r.frames + [Nalus(units)])
  {
    hide ReceivePayloads, FramePayloads, GoodUnits, Nalus;
    ReceiveUnits(r, units);
    EmptyPlus(Nalus(units));
    assert ReceivePayloads(r, FramePayloads(units)) == r.(nalus := Nalus(units));
  }

  lemma EmptyPlus<T>(s: seq<T>)
    ensures [] + s == s
  {
  }

  /** One Pack call, received: exactly one frame is completed, with the NALUs of the buffer
      byte for byte; a buffer without NALUs changes nothing. */
  lemma ReceiveFrame(r: Receiver, c: Config, frame: seq<Byte>, seqnum: UInt16, timestamp: UInt32)
    requires r.partial == None && r.nalus == [] && GoodUnits(ParsedUnits(frame))
    ensures ReceiveAll(r, FramePackets(c, frame, seqnum, timestamp)) ==
            if ParsedUnits(frame) == [] then r
            else r.(frames := r.frames + [Nalus(ParsedUnits(frame))])
  {
    var units := ParsedUnits(frame);
    if units == [] {
      assert FramePackets(c, frame, seqnum, timestamp) == [];
    } else {
      ReceiveNumbered(r, c, FramePayloads(units), seqnum, timestamp, 1);
      EndOfUnits(r, units);
    }
  }

  // ----- whole runs -----

  datatype Frame = Frame(data: seq<Byte>, timestamp: UInt32)

  /** The packets of a run of Pack calls on one packetizer. */
  function RunPackets(c: Config, frames: seq<Frame>, seqnum: UInt16): seq<RtpPacket> {
    if frames == [] then []
    else
      var last := |frames| - 1;
      var before := RunPackets(c, frames[..last], seqnum);
      before + FramePackets(c, frames[last].data, Next(seqnum, |before|), frames[last].timestamp)
  }

  /** The NALU lists of the frames that hold any. */
  function NonemptyFrames(frames: seq<Frame>): seq<seq<seq<Byte>>> {
    if frames == [] then []
    else
      var last := |frames| - 1;
      var units := ParsedUnits(frames[last].data);
      NonemptyFrames(frames[..last]) + if units == [] then [] else [Nalus(units)]
  }

  /** Packetize then depacketize is the identity, over whole runs of frames. */
  lemma {:induction false} ReceiveRun(c: Config, frames: seq<Frame>, seqnum: UInt16)
    requires forall f :: f in frames ==> GoodUnits(ParsedUnits(f.data))
    ensures ReceiveAll(EMPTY, RunPackets(c, frames, seqnum)) == Receiver(NonemptyFrames(frames), [], None)
    decreases |frames|
  {
    if frames != [] {
      var last := |frames| - 1;
      var before := RunPackets(c, frames[..last], seqnum);
      var f := frames[last];
      ReceiveRun(c, frames[..last], seqnum);
      ReceiveInParts(EMPTY, before, FramePackets(c, f.data, Next(seqnum, |before|), f.timestamp));
      ReceiveFrame(Receiver(NonemptyFrames(frames[..last]), [], None), c, f.data, Next(seqnum, |before|), f.timestamp);
    }
  }

  /** A frame written in Annex B format, every NALU fit to travel. */
  ghost predicate Encodes(f: Frame, units: seq<Unit>) {
    units != [] && Canonical(units) && GoodUnits(units) && f.data == Stream(units)
  }

  ghost predicate AllEncode(frames: seq<Frame>, lists: seq<seq<Unit>>) {
    |frames| == |lists| && forall k :: 0 <= k < |lists| ==> Encodes(frames[k], lists[k])
  }

  function NalusOfAll(lists: seq<seq<Unit>>): seq<seq<seq<Byte>>> {
    if lists == [] then []
    else
      var last := |lists| - 1;
      NalusOfAll(lists[..last]) + [Nalus(lists[last])]
  }

  /** Annex B in, NALUs out: encoded unit lists pass the scan, the packetizer and the receiver. */
  lemma ReceiveStreams(c: Config, frames: seq<Frame>, lists: seq<seq<Unit>>, seqnum: UInt16)
    requires AllEncode(frames, lists)
    ensures ReceiveAll(EMPTY, RunPackets(c, frames, seqnum)) == Receiver(NalusOfAll(lists), [], None)
  {
    forall f | f in frames
      ensures GoodUnits(ParsedUnits(f.data))
    {
      var k :| 0 <= k < |frames| && frames[k] == f;
      ParseOfEncoded(f, lists[k]);
    }
    ReceiveRun(c, frames, seqnum);
    FramesOfStreams(frames, lists);
  }

  lemma ParseOfEncoded(f: Frame, units: seq<Unit>)
    requires Encodes(f, units)
    ensures ParsedUnits(f.data) == units && GoodUnits(units)
  {
    ParseOfStream(units);
  }

  lemma {:induction false} FramesOfStreams(frames: seq<Frame>, lists: seq<seq<Unit>>)
    requires AllEncode(frames, lists)
    ensures NonemptyFrames(frames) == NalusOfAll(lists)
    decreases |frames|
  {
    if frames != [] {
      var last := |frames| - 1;
      FramesOfStreams(frames[..last], lists[..last]);
      ParseOfEncoded(frames[last], lists[last]);
    }
  }

  /** A packet carries its number and the packetizer's identity, in the fields and in the bytes. */
  ghost predicate Carries(p: RtpPacket, c: Config, seqnum: UInt16) {
    && p.sequenceNumber == seqnum && p.ssrc == c.ssrc && p.headerOffset == RTP_HEADER_FIXED_SIZE
    && ParseRtp(p.data).Some?
    && ParseRtp(p.data).value.sequenceNumber == seqnum
    && ParseRtp(p.data).value.payloadType == c.payloadType % 0x80
    && ParseRtp(p.data).value.ssrc == c.ssrc
  }

  lemma NumberedCarry(c: Config, payloads: seq<seq<Byte>>, seqnum: UInt16, timestamp: UInt32, marker: Byte, k: nat)
    requires k < |payloads|
    ensures Carries(Numbered(c, payloads, seqnum, timestamp, marker)[k], c, Next(seqnum, k))
  {
    ParseOfPacket(c, if k == |payloads| - 1 then marker else 0, Next(seqnum, k), timestamp, payloads[k]);
  }

  ghost predicate AllCarry(packets: seq<RtpPacket>, c: Config, seqnum: UInt16) {
    forall k :: 0 <= k < |packets| ==> Carries(packets[k], c, Next(seqnum, k))
  }

  lemma BothCarry(p: seq<RtpPacket>, q: seq<RtpPacket>, c: Config, seqnum: UInt16)
    requires AllCarry(p, c, seqnum) && AllCarry(q, c, Next(seqnum, |p|))
    ensures AllCarry(p + q, c, seqnum)
  {
    forall k | |p| <= k < |p + q|
      ensures Carries((p + q)[k], c, Next(seqnum, k))
    {
      NextNext(seqnum, |p|, k - |p|);
      assert (p + q)[k] == q[k - |p|];
    }
  }

  lemma FrameCarries(c: Config, frame: seq<Byte>, seqnum: UInt16, timestamp: UInt32)
    ensures AllCarry(FramePackets(c, frame, seqnum, timestamp), c, seqnum)
  {
    var payloads := FramePayloads(ParsedUnits(frame));
    forall k | 0 <= k < |payloads|
      ensures Carries(Numbered(c, payloads, seqnum, timestamp, 1)[k], c, Next(seqnum, k))
    {
      NumberedCarry(c, payloads, seqnum, timestamp, 1, k);
    }
  }

  /** Over a run the packets are numbered consecutively modulo 2^16. */
  lemma {:induction false} RunIsNumbered(c: Config, frames: seq<Frame>, seqnum: UInt16)
    ensures AllCarry(RunPackets(c, frames, seqnum), c, seqnum)
    decreases |frames|
  {
    if frames != [] {
      var last := |frames| - 1;
      var before := RunPackets(c, frames[..last], seqnum);
      RunIsNumbered(c, frames[..last], seqnum);
      FrameCarries(c, frames[last].data, Next(seqnum, |before|), frames[last].timestamp);
      BothCarry(before, FramePackets(c, frames[last].data, Next(seqnum, |before|), frames[last].timestamp), c, seqnum);
    }
  }

  /** Within a frame the marker bit is set on the last packet and on no other. */
  lemma FrameMarker(c: Config, frame: seq<Byte>, seqnum: UInt16, timestamp: UInt32, k: nat)
    requires k < |FramePackets(c, frame, seqnum, timestamp)|
    ensures var packets := FramePackets(c, frame, seqnum, timestamp);
            ParseRtp(packets[k].data).Some? && (ParseRtp(packets[k].data).value.marker <==> k == |packets| - 1)
  {
    var payloads := FramePayloads(ParsedUnits(frame));
    ParseOfPacket(c, if k == |payloads| - 1 then 1 else 0, Next(seqnum, k), timestamp, payloads[k]);
  }

  /** A packet carries the timestamp, in the field and in the bytes. */
  ghost predicate Timed(p: RtpPacket, timestamp: UInt32) {
    p.timestamp == timestamp && ParseRtp(p.data).Some? && ParseRtp(p.data).value.timestamp == timestamp
  }

  /** Every packet of a frame carries the frame's timestamp. */
  lemma FrameTimestamp(c: Config, frame: seq<Byte>, seqnum: UInt16, timestamp: UInt32, k: nat)
    requires k < |FramePackets(c, frame, seqnum, timestamp)|
    ensures Timed(FramePackets(c, frame, seqnum, timestamp)[k], timestamp)
  {
    var payloads := FramePayloads(ParsedUnits(frame));
    ParseOfPacket(c, if k == |payloads| - 1 then 1 else 0, Next(seqnum, k), timestamp, payloads[k]);
  }

  /** The packets of frame f in a run: they lie between those of the frames before it and those
      up to it, and carry its timestamp. */
  lemma {:induction false} RunTimestamps(c: Config, frames: seq<Frame>, seqnum: UInt16, f: nat)
    requires f < |frames|
    ensures var lo, hi := |RunPackets(c, frames[..f], seqnum)|, |RunPackets(c, frames[..f + 1], seqnum)|;
            var packets := RunPackets(c, frames, seqnum);
            lo <= hi <= |packets| && forall j :: lo <= j < hi ==> Timed(packets[j], frames[f].timestamp)
    decreases |frames|
  {
    hide FramePackets, Timed;
    var last := |frames| - 1;
    var before := RunPackets(c, frames[..last], seqnum);
    if f < last {
      assert frames[..last][..f] == frames[..f] && frames[..last][..f + 1] == frames[..f + 1];
      RunTimestamps(c, frames[..last], seqnum, f);
    } else {
      var g := frames[last];
      assert frames[..f + 1] == frames;
      forall j | 0 <= j < |FramePackets(c, g.data, Next(seqnum, |before|), g.timestamp)|
        ensures Timed(FramePackets(c, g.data, Next(seqnum, |before|), g.timestamp)[j], g.timestamp)
      {
        FrameTimestamp(c, g.data, Next(seqnum, |before|), g.timestamp, j);
      }
    }
  }

  /** Packet j of a run belongs to frame f. */
  ghost predicate BelongsTo(c: Config, frames: seq<Frame>, seqnum: UInt16, j: nat, f: nat)
    requires f < |frames|
  {
    |RunPackets(c, frames[..f], seqnum)| <= j < |RunPackets(c, frames[..f + 1], seqnum)|
  }

  lemma RunStarts(c: Config, frames: seq<Frame>, seqnum: UInt16)
    ensures if frames == [] then RunPackets(c, frames, seqnum) == []
            else RunPackets(c, frames[..|frames| - 1], seqnum) <= RunPackets(c, frames, seqnum)
  {
    hide FramePackets;
  }

  /** Every packet of a run belongs to one of its frames, and carries that frame's timestamp. */
  lemma {:induction false} PacketTimestamp(c: Config, frames: seq<Frame>, seqnum: UInt16, j: nat)
    requires j < |RunPackets(c, frames, seqnum)|
    ensures exists f :: 0 <= f < |frames| && BelongsTo(c, frames, seqnum, j, f)
                        && Timed(RunPackets(c, frames, seqnum)[j], frames[f].timestamp)
    decreases |frames|
  {
    hide RunPackets, Timed;
    RunStarts(c, frames, seqnum);
    var last := |frames| - 1;
    var before := frames[..last];
    if j < |RunPackets(c, before, seqnum)| {
      PacketTimestamp(c, before, seqnum, j);
      var f :| 0 <= f < last && BelongsTo(c, before, seqnum, j, f)
               && Timed(RunPackets(c, before, seqnum)[j], before[f].timestamp);
      assert before[..f] == frames[..f] && before[..f + 1] == frames[..f + 1];
      assert BelongsTo(c, frames, seqnum, j, f);
    } else {
      RunTimestamps(c, frames, seqnum, last);
      assert frames[..last + 1] == frames;
      assert BelongsTo(c, frames, seqnum, j, last);
    }
  }

  // ----- the shape of a fragmented NALU -----

  function CeilDiv(a: nat, b: nat): nat
    requires b > 0
  {
    (a + b - 1) / b
  }

  lemma {:induction false} FragmentCount(h: Byte, rest: seq<Byte>, start: bool)
    requires rest != []
    ensures |Fragments(h, rest, start)| == CeilDiv(|rest|, 1198)
    decreases |rest|
  {
    var cut := 1198;
    if |rest| > cut {
      FragmentCount(h, rest[cut..], false);
    }
  }

  /** A fragment list: non-empty pieces within the payload limit, Start on the first only,
      End on the last only, the NALU header's bits in every one of them. */
  ghost predicate FuShape(h: Byte, fragments: seq<seq<Byte>>, start: bool) {
    forall k :: 0 <= k < |fragments| ==>
      && 2 < |fragments[k]| <= 1200
      && fragments[k][0] == FuIndicator(h)
      && fragments[k][1] == FuHeader(h, start && k == 0, k == |fragments| - 1)
  }

  lemma {:induction false} FragmentShape(h: Byte, rest: seq<Byte>, start: bool)
    requires rest != []
    ensures FuShape(h, Fragments(h, rest, start), start)
    decreases |rest|
  {
    var cut := 1198;
    if |rest| > cut {
      FragmentShape(h, rest[cut..], false);
    }
  }

  /** Section 5.8 of RFC 6184: a NALU over 1200 bytes travels in ceil((size - 1) / 1198) >= 2
      fragments, so that Start and End are never set in the same one. */
  lemma LargeNaluShape(nalu: seq<Byte>)
    requires |nalu| > 1200
    ensures |NaluPayloads(nalu)| == CeilDiv(|nalu| - 1, 1198) >= 2
    ensures FuShape(nalu[0], NaluPayloads(nalu), true)
  {
    FragmentCount(nalu[0], nalu[1..], true);
    FragmentShape(nalu[0], nalu[1..], true);
  }

  lemma {:induction false} PayloadLimit(units: seq<Unit>, k: nat)
    requires k < |FramePayloads(units)|
    ensures |FramePayloads(units)[k]| <= 1200
    decreases |units|
  {
    var last := |units| - 1;
    var before := FramePayloads(units[..last]);
    if k < |before| {
      PayloadLimit(units[..last], k);
    } else if |units[last].nalu| > 1200 {
      LargeNaluShape(units[last].nalu);
    }
  }

  /** No packet is larger than 1212 bytes, whatever the frame. */
  lemma PacketLimit(c: Config, frame: seq<Byte>, seqnum: UInt16, timestamp: UInt32, k: nat)
    requires k < |FramePackets(c, frame, seqnum, timestamp)|
    ensures |FramePackets(c, frame, seqnum, timestamp)[k].data| <= 1212
  {
    PayloadLimit(ParsedUnits(frame), k);
  }
}
