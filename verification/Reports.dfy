/** Sender and receiver reports end to end: what a sender report carries on the wire, and the
    round-trip time a track computes from a peer's answer to it. */
module Reports {
  import opened Bytes
  import opened RtpPacketizer
  import opened Ntp
  import opened Rtcp
  import opened RtcpFraming
  import opened StreamTrack
  import opened TrackRuns
  import RtxPacket

  /** Every field of a sender report stands at its place in network byte order (section 6.4.1
      of RFC 3550), and the 32 bits a peer quotes as "last SR", the middle ones of the NTP
      timestamp, are its compact form. */
  lemma SenderReportOnWire(r: SenderReport)
    ensures var b := SenderReportBytes(r);
            && HeaderAt(b, 0) == Header(0, 0, 2, 200, 6)
            && LoadUInt32BE(b, 4) == r.senderSsrc
            && LoadUInt32BE(b, 8) == r.ntpSeconds && LoadUInt32BE(b, 12) == r.ntpFractions
            && LoadUInt32BE(b, 16) == r.rtpTimestamp
            && LoadUInt32BE(b, 20) == r.sendPacketCount && LoadUInt32BE(b, 24) == r.sendOctets
            && LoadUInt32BE(b, 10) == NtpTime(r.ntpSeconds, r.ntpFractions).ToCompactNtp()
  {
    hide UInt32Bytes, LoadUInt32BE;
    var b := SenderReportBytes(r);
    var counts := UInt32Bytes(r.sendPacketCount) + UInt32Bytes(r.sendOctets);
    var times := UInt32Bytes(r.ntpSeconds) + (UInt32Bytes(r.ntpFractions) + (UInt32Bytes(r.rtpTimestamp) + counts));
    assert b[..] == b;
    AtBoth(b, 0, [0x80, 200] + UInt16Bytes(6), UInt32Bytes(r.senderSsrc) + times);
    WordAt(b, 4, r.senderSsrc, times);
    WordAt(b, 8, r.ntpSeconds, UInt32Bytes(r.ntpFractions) + (UInt32Bytes(r.rtpTimestamp) + counts));
    WordAt(b, 12, r.ntpFractions, UInt32Bytes(r.rtpTimestamp) + counts);
    WordAt(b, 16, r.rtpTimestamp, counts);
    WordAt(b, 20, r.sendPacketCount, UInt32Bytes(r.sendOctets));
    LoadOfBytes32(b, 24, r.sendOctets);
    HeaderDecoded(b, 0, Header(0, 0, 2, 200, 6));
    MiddleBits(b, r.ntpSeconds, r.ntpFractions);
  }

  lemma MiddleBits(b: seq<Byte>, seconds: UInt32, fractions: UInt32)
    requires |b| >= 16 && LoadUInt32BE(b, 8) == seconds && LoadUInt32BE(b, 12) == fractions
    ensures LoadUInt32BE(b, 10) == NtpTime(seconds, fractions).ToCompactNtp()
  {
  }

  /** The report is one well-formed RTCP packet that fills its buffer. */
  lemma SenderReportParses(r: SenderReport)
    ensures ParseAll(SenderReportBytes(r), 0) == Some([Plain(Header(0, 0, 2, 200, 6))])
  {
    hide SenderReportBytes;
    SenderReportOnWire(r);
    var b := SenderReportBytes(r);
    assert ParseOne(b, 0) == Parsed(Plain(HeaderAt(b, 0)), 28);
    var packet := Plain(HeaderAt(b, 0));
    assert ParseAll(b, 28) == Some([]) && [packet] + [] == [packet];
  }

  // ----- the round-trip time -----

  /** Report block j of packet k in a compound is the peer's answer, held back for d ms, to
      the sender report made at t0. */
  ghost predicate Answers(p: RtpParams, s: TrackState, t0: UInt64, d: nat, ws: seq<Wire>, k: nat, j: nat) {
    && SenderReportOf(p, s, t0).Some?
    && AllFit(ws) && k < |ws| && ws[k].WireReport? && j < |ws[k].blocks|
    && ws[k].blocks[j].lastSr == LoadUInt32BE(SenderReportBytes(SenderReportOf(p, s, t0).value), 10)
    && ws[k].blocks[j].delaySinceLastSr == d * 65536 / 1000 % TWO_TO_32
  }

  /** Sender report out, receiver report back: the block survives the wire, and the track that
      parses it at t0 + d + e computes exactly e as its round-trip time if and only if e is
      below 65536 s, unless the quoted time stamp happens to be 0, which counts as none. */
  lemma ReportedRoundTrip(p: RtpParams, s: TrackState, s': TrackState, t0: nat, d: nat, e: nat,
                          ws: seq<Wire>, k: nat, j: nat)
    requires t0 + d + e < TWO_TO_64 && Answers(p, s, t0, d, ws, k, j)
    ensures var parsed := ParseAll(EncodeAll(ws), 0);
            && parsed.Some? && k < |parsed.value| && parsed.value[k].ReceiverReport?
            && j < |parsed.value[k].blocks|
            && var block := parsed.value[k].blocks[j];
               var after := AfterReport(s', block.lastSr, block.delaySinceLastSr, t0 + d + e);
               if block.lastSr == 0 then after == s'
               else after.rtt == e <==> e < 65536000
  {
    hide EncodeAll, Meanings, SenderReportBytes, RoundTrip;
    CompoundRoundTrip(ws);
    MeaningAt(ws, k);
    SenderReportOnWire(SenderReportOf(p, s, t0).value);
    RoundTripExact(t0, d, e);
  }

  // ----- the RTP timestamp of a sender report -----

  lemma DivideParts(u: int, v: nat, y: int)
    requires v < 1000
    ensures (1000 * u + v + TWO_TO_32 * y) / 1000 == u + TWO_TO_32 * (y / 1000) + (v + TWO_TO_32 * (y % 1000)) / 1000
  {
    assert 1000 * u + v + TWO_TO_32 * y == 1000 * (u + TWO_TO_32 * (y / 1000)) + (v + TWO_TO_32 * (y % 1000));
  }

  /** Whole multiples of 2^32 stay invisible modulo 2^32 after a division by 1000 if and only
      if their number is a multiple of 1000. */
  lemma DividedWraps(x: int, y: int)
    ensures (x + TWO_TO_32 * y) / 1000 % TWO_TO_32 == x / 1000 % TWO_TO_32 <==> y % 1000 == 0
  {
    var u, v, m, t := x / 1000, x % 1000, y / 1000, y % 1000;
    var w := (v + TWO_TO_32 * t) / 1000;
    DivideParts(u, v, y);
    assert t == 0 ==> w == 0;
    assert t > 0 ==> 0 < w < TWO_TO_32;
    ShiftedRemainder(u, m, w);
  }

  lemma ShiftedRemainder(u: int, m: int, w: nat)
    requires w < TWO_TO_32
    ensures (u + TWO_TO_32 * m + w) % TWO_TO_32 == u % TWO_TO_32 <==> w == 0
  {
    var r := u % TWO_TO_32 + w;
    if r < TWO_TO_32 {
      Remainder32(u + TWO_TO_32 * m + w, u / TWO_TO_32 + m, r);
    } else {
      Remainder32(u + TWO_TO_32 * m + w, u / TWO_TO_32 + m + 1, r - TWO_TO_32);
    }
  }

  lemma MulMonotone(x: nat, y: nat, k: nat)
    requires x <= y
    ensures x * k <= y * k
  {
  }

  lemma Distribute(x: nat, q: nat, k: nat)
    ensures (x + TWO_TO_32 * q) * k == x * k + TWO_TO_32 * (q * k)
  {
  }

  /** The RTP clock ticks of the time passed: exactly, and as the source computes them. */
  function Ticks(sentAt: UInt64, now: UInt64, rate: UInt32): int {
    (now - sentAt) * rate / 1000
  }

  function TicksComputed(sentAt: UInt64, now: UInt64, rate: UInt32): nat {
    (now - sentAt % TWO_TO_32) % TWO_TO_64 * rate % TWO_TO_64 / 1000
  }

  /** How often the product of the time passed, as computed, and the clock rate overflows 64 bits. */
  function Overflows(sentAt: UInt64, now: UInt64, rate: UInt32): int {
    (now - sentAt % TWO_TO_32) % TWO_TO_64 * rate / TWO_TO_64
  }

  /** The lost and the surplus multiples of 2^32 in the product. */
  function Surplus(sentAt: UInt64, now: UInt64, rate: UInt32): int {
    sentAt / TWO_TO_32 * rate - TWO_TO_32 * Overflows(sentAt, now, rate)
  }

  lemma DropHigh(x: int)
    ensures x % TWO_TO_64 == x - TWO_TO_32 * (TWO_TO_32 * (x / TWO_TO_64))
  {
  }

  lemma TicksInParts(sentAt: UInt64, now: UInt64, rate: UInt32)
    requires sentAt <= now
    ensures TicksComputed(sentAt, now, rate)
            == ((now - sentAt) * rate + TWO_TO_32 * Surplus(sentAt, now, rate)) / 1000
  {
    var d, q := now - sentAt % TWO_TO_32, sentAt / TWO_TO_32;
    assert d % TWO_TO_64 == d && d == (now - sentAt) + TWO_TO_32 * q;
    DropHigh(d * rate);
    Distribute(now - sentAt, q, rate);
  }

  lemma TicksForward(sentAt: UInt64, now: UInt64, rate: UInt32)
    requires sentAt <= now
    ensures Ticks(sentAt, now, rate) >= 0
  {
    MulMonotone(0, now - sentAt, rate);
  }

  lemma PassedTime(sentAt: UInt64, now: UInt64, rate: UInt32)
    requires sentAt <= now
    ensures TicksComputed(sentAt, now, rate) % TWO_TO_32 == Ticks(sentAt, now, rate) % TWO_TO_32
            <==> Surplus(sentAt, now, rate) % 1000 == 0
  {
    hide TicksComputed, Surplus;
    TicksInParts(sentAt, now, rate);
    DividedWraps((now - sentAt) * rate, Surplus(sentAt, now, rate));
  }

  lemma NoOverflow(sentAt: UInt64, now: UInt64, rate: UInt32)
    requires sentAt <= now && now * rate < TWO_TO_64
    ensures Overflows(sentAt, now, rate) == 0
  {
    var d := now - sentAt % TWO_TO_32;
    assert d % TWO_TO_64 == d;
    MulMonotone(d, now, rate);
    MulMonotone(0, d, rate);
  }

  lemma SameSum(t: nat, x: nat, y: nat)
    requires t < TWO_TO_32
    ensures (t + x) % TWO_TO_32 == (t + y) % TWO_TO_32 <==> x % TWO_TO_32 == y % TWO_TO_32
  {
    AddModulo32(x, t);
    AddModulo32(y, t);
  }

  lemma ReportAfterPacket(p: RtpParams, s: TrackState, pkt: RtpPacket, sentAt: UInt64, now: UInt64)
    requires s.Ok() && pkt.ssrc == p.ssrc
    ensures var r := SenderReportOf(p, AfterPacket(p, s, pkt, sentAt), now);
            if (s.sendPacketCount + 1) % TWO_TO_32 == 0 then r.None?
            else
              r.Some? && r.value.rtpTimestamp == (pkt.timestamp + TicksComputed(sentAt, now, p.clockRate)) % TWO_TO_32
  {
  }

  /** A sender report's RTP timestamp is the last packet's, moved on by the time passed since it
      was sent, if and only if the surplus is a multiple of 1000. It has two sources: the time of
      the last packet is kept in 32 bits only, and the product with the clock rate in 64. */
  lemma SenderReportTimestamp(p: RtpParams, s: TrackState, pkt: RtpPacket, sentAt: UInt64, now: UInt64)
    requires s.Ok() && pkt.ssrc == p.ssrc && sentAt <= now
    ensures var r := SenderReportOf(p, AfterPacket(p, s, pkt, sentAt), now);
            if (s.sendPacketCount + 1) % TWO_TO_32 == 0 then r.None?
            else
              && r.Some?
              && (r.value.rtpTimestamp == (pkt.timestamp + Ticks(sentAt, now, p.clockRate)) % TWO_TO_32
                  <==> Surplus(sentAt, now, p.clockRate) % 1000 == 0)
  {
    hide AfterPacket, SenderReportOf, Ticks, TicksComputed, Surplus;
    ReportAfterPacket(p, s, pkt, sentAt, now);
    ExactTicks(pkt.timestamp, sentAt, now, p.clockRate);
  }

  /** What a sender report says, over every run: it is made iff a packet has been sent (their
      number counts modulo 2^32); it names the track's SSRC and the NTP time of its making, counts
      the first transmissions and their octets, and takes its RTP timestamp from the last of them,
      moved on from the time that one was sent. */
  lemma ReportOfRun(p: RtpParams, steps: seq<Step>, k: nat, now: UInt64)
    requires GoodSteps(p, steps) && LastSent(steps, k)
    ensures var w, sentAt := Run(p, steps), steps[k].now;
            var r := SenderReportOf(p, w.track, now);
            if |w.sent| % TWO_TO_32 == 0 then r.None?
            else
              && r.Some? && r.value.senderSsrc == p.ssrc
              && r.value.ntpSeconds == now / 1000 % TWO_TO_32
              && r.value.ntpFractions == now % 1000 * TWO_TO_32 / 1000
              && r.value.sendPacketCount == |w.sent| % TWO_TO_32
              && r.value.sendOctets == TotalSize(w.sent) % TWO_TO_32
              && r.value.rtpTimestamp == (steps[k].pkt.timestamp + TicksComputed(sentAt, now, p.clockRate)) % TWO_TO_32
              && (sentAt <= now ==>
                    (r.value.rtpTimestamp == (steps[k].pkt.timestamp + Ticks(sentAt, now, p.clockRate)) % TWO_TO_32
                     <==> Surplus(sentAt, now, p.clockRate) % 1000 == 0))
  {
    hide Run, Ticks, Surplus;
    RunCounts(p, steps);
    ReportStartsFromLast(p, steps, k);
    if steps[k].now <= now {
      ExactTicks(steps[k].pkt.timestamp, steps[k].now, now, p.clockRate);
    }
  }

  lemma {:induction false} NothingReported(p: RtpParams, steps: seq<Step>, now: UInt64)
    requires GoodSteps(p, steps) && forall i :: 0 <= i < |steps| ==> !steps[i].Send?
    ensures SenderReportOf(p, Run(p, steps).track, now).None?
    decreases |steps|
  {
    hide Own, TrackState.Ok;
    if steps != [] {
      NothingReported(p, steps[..|steps| - 1], now);
    }
  }

  lemma ExactTicks(timestamp: UInt32, sentAt: UInt64, now: UInt64, rate: UInt32)
    requires sentAt <= now
    ensures (timestamp + TicksComputed(sentAt, now, rate)) % TWO_TO_32
            == (timestamp + Ticks(sentAt, now, rate)) % TWO_TO_32
            <==> Surplus(sentAt, now, rate) % 1000 == 0
  {
    hide Ticks, TicksComputed, Surplus;
    PassedTime(sentAt, now, rate);
    TicksForward(sentAt, now, rate);
    SameSum(timestamp, TicksComputed(sentAt, now, rate), Ticks(sentAt, now, rate));
  }

  /** For a clock of whole kHz, such as the 90000 and 48000 Hz the tracks are made with, the 32
      bits lose nothing: the timestamp is exact if and only if the number of overflows of the
      product is a multiple of 125, and so as long as there is none. */
  lemma WholeKilohertzExact(p: RtpParams, s: TrackState, pkt: RtpPacket, sentAt: UInt64, now: UInt64)
    requires s.Ok() && pkt.ssrc == p.ssrc && sentAt <= now
    requires p.clockRate % 1000 == 0 && (s.sendPacketCount + 1) % TWO_TO_32 != 0
    ensures var r := SenderReportOf(p, AfterPacket(p, s, pkt, sentAt), now);
            var exact := (pkt.timestamp + Ticks(sentAt, now, p.clockRate)) % TWO_TO_32;
            && r.Some?
            && (r.value.rtpTimestamp == exact <==> Overflows(sentAt, now, p.clockRate) % 125 == 0)
            && (now * p.clockRate < TWO_TO_64 ==> r.value.rtpTimestamp == exact)
  {
    hide AfterPacket, SenderReportOf, Ticks, Overflows;
    SenderReportTimestamp(p, s, pkt, sentAt, now);
    MultipleOf1000(sentAt / TWO_TO_32, p.clockRate);
    SurplusOfWhole(sentAt / TWO_TO_32 * p.clockRate, Overflows(sentAt, now, p.clockRate));
    if now * p.clockRate < TWO_TO_64 {
      NoOverflow(sentAt, now, p.clockRate);
    }
  }

  lemma SurplusOfWhole(k: int, m: int)
    requires k % 1000 == 0
    ensures (k - TWO_TO_32 * m) % 1000 == 0 <==> m % 125 == 0
  {
    var a, b := k / 1000, m / 125;
    var t := m % 125;
    assert k - TWO_TO_32 * m == 1000 * (a - 536870912 * b) - TWO_TO_32 * t;
  }

  lemma MultipleOf1000(q: nat, k: nat)
    requires k % 1000 == 0
    ensures q * k % 1000 == 0
  {
    var n := k / 1000;
    assert q * k == 1000 * (q * n);
  }

  /** A limit of the class, for clock rates no track of the server has: at 44100 Hz a packet sent
      2^32 ms after the clock's origin is reported under a wrong timestamp. */
  lemma SenderReportTimestampOff(p: RtpParams, s: TrackState, pkt: RtpPacket)
    requires s.Ok() && pkt.ssrc == p.ssrc && p.clockRate == 44100 && (s.sendPacketCount + 1) % TWO_TO_32 != 0
    ensures var r := SenderReportOf(p, AfterPacket(p, s, pkt, TWO_TO_32), TWO_TO_32);
            r.Some? && r.value.rtpTimestamp != pkt.timestamp
  {
    SenderReportTimestamp(p, s, pkt, TWO_TO_32, TWO_TO_32);
  }

  // ----- the octet count of a sender report -----

  function HeaderTotal(sent: seq<RtpPacket>): nat {
    if sent == [] then 0
    else HeaderTotal(sent[..|sent| - 1]) + sent[|sent| - 1].headerOffset
  }

  /** What section 6.4.1 of RFC 3550 asks for: the payload octets, headers not included. */
  function PayloadTotal(sent: seq<RtpPacket>): int {
    if sent == [] then 0
    else PayloadTotal(sent[..|sent| - 1]) + |sent[|sent| - 1].data| - sent[|sent| - 1].headerOffset
  }

  ghost predicate HeadersFit(sent: seq<RtpPacket>) {
    forall i :: 0 <= i < |sent| ==> RtxPacket.HeaderFits(sent[i].headerOffset, sent[i].data)
  }

  lemma {:induction false} SizesSplit(sent: seq<RtpPacket>)
    requires HeadersFit(sent)
    ensures TotalSize(sent) == HeaderTotal(sent) + PayloadTotal(sent) && PayloadTotal(sent) >= 0
    decreases |sent|
  {
    if sent != [] {
      SizesSplit(sent[..|sent| - 1]);
    }
  }

  lemma {:induction false} SentHeadersFit(p: RtpParams, steps: seq<Step>)
    requires GoodSteps(p, steps)
    ensures HeadersFit(Run(p, steps).sent)
    decreases |steps|
  {
    if steps != [] {
      var last := |steps| - 1;
      SentHeadersFit(p, steps[..last]);
      StepHeadersFit(p, Run(p, steps[..last]), steps[last]);
    }
  }

  lemma StepHeadersFit(p: RtpParams, w: World, step: Step)
    requires w.track.Ok() && GoodStep(p, step) && HeadersFit(w.sent)
    ensures HeadersFit(Advance(p, w, step).sent)
  {
  }

  lemma AddedRemainder(h: nat, y: nat)
    ensures (h + y) % TWO_TO_32 == y % TWO_TO_32 <==> h % TWO_TO_32 == 0
  {
    ShiftedRemainder(y, h / TWO_TO_32, h % TWO_TO_32);
  }

  /** The octet count includes the headers. Over every run it is the payload octets modulo 2^32
      if and only if the header sizes happen to add up to a multiple of 2^32. */
  lemma OctetsCountPayload(p: RtpParams, steps: seq<Step>, now: UInt64)
    requires GoodSteps(p, steps)
    ensures var w := Run(p, steps);
            var r := SenderReportOf(p, w.track, now);
            r.Some? ==>
              (r.value.sendOctets == PayloadTotal(w.sent) % TWO_TO_32 <==> HeaderTotal(w.sent) % TWO_TO_32 == 0)
  {
    hide Run;
    var sent := Run(p, steps).sent;
    RunCounts(p, steps);
    SentHeadersFit(p, steps);
    SizesSplit(sent);
    AddedRemainder(HeaderTotal(sent), PayloadTotal(sent));
  }

  lemma {:induction false} FixedHeaders(sent: seq<RtpPacket>)
    requires forall i :: 0 <= i < |sent| ==> sent[i].headerOffset == RTP_HEADER_FIXED_SIZE
    ensures HeaderTotal(sent) == RTP_HEADER_FIXED_SIZE * |sent|
    decreases |sent|
  {
    if sent != [] {
      FixedHeaders(sent[..|sent| - 1]);
    }
  }

  lemma TwelveTimes(n: nat)
    ensures 12 * n % TWO_TO_32 == 0 <==> n % 0x4000_0000 == 0
  {
    var q, r := n / 0x4000_0000, n % 0x4000_0000;
    assert 12 * n == TWO_TO_32 * (3 * q) + 12 * r;
    var k := 12 * r / TWO_TO_32;
    assert 12 * r == TWO_TO_32 * k + 12 * r % TWO_TO_32 && k in {0, 1, 2};
    Remainder32(12 * n, 3 * q + k, 12 * r % TWO_TO_32);
  }

  /** With the 12-byte headers of the packetizer: if and only if the number of packets is a
      multiple of 2^30. */
  lemma OctetsOfFixedHeaders(p: RtpParams, steps: seq<Step>, now: UInt64)
    requires GoodSteps(p, steps)
    requires forall i :: 0 <= i < |Run(p, steps).sent| ==> Run(p, steps).sent[i].headerOffset == RTP_HEADER_FIXED_SIZE
    ensures var w := Run(p, steps);
            var r := SenderReportOf(p, w.track, now);
            r.Some? ==>
              (r.value.sendOctets == PayloadTotal(w.sent) % TWO_TO_32 <==> |w.sent| % 0x4000_0000 == 0)
  {
    hide Run, SenderReportOf;
    OctetsCountPayload(p, steps, now);
    FixedHeaders(Run(p, steps).sent);
    TwelveTimes(|Run(p, steps).sent|);
  }

  /** One packet with one byte of payload is reported as 13 octets. */
  lemma OneByteReported(p: RtpParams, b: Byte, now: UInt64)
    ensures var steps := [Send(Packet(Config(p.ssrc, p.payloadType), 1, 0, 0, [b]), now)];
            && GoodSteps(p, steps) && PayloadTotal(Run(p, steps).sent) == 1
            && SenderReportOf(p, Run(p, steps).track, now).Some?
            && SenderReportOf(p, Run(p, steps).track, now).value.sendOctets == 13
  {
    hide RtpPacketizer.Header, Own, FreshTrack;
    var pkt := Packet(Config(p.ssrc, p.payloadType), 1, 0, 0, [b]);
    PacketIsOwn(p, 1, 0, 0, [b]);
    var steps := [Send(pkt, now)];
    assert steps[..0] == [];
    assert GoodStep(p, steps[0]);
    RunCounts(p, steps);
    var w := Run(p, steps);
    assert w.sent == [pkt] && [pkt][..0] == [];
    assert TotalSize([pkt]) == 13;
  }
}
