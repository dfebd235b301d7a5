/** Whole runs of a track: what the send buffer holds and what is resent, over every
    interleaving of packets sent, numbers requested and reports received. */
module TrackRuns {
  import opened Bytes
  import opened RtpPacketizer
  import opened RtxPacket
  import opened StreamTrack
  import Ntp

  datatype Step =
    | Send(pkt: RtpPacket, now: UInt64)
    | Ask(seqnum: UInt16, now: UInt64)
    | Report(lastSr: UInt32, delaySinceLastSr: UInt32, now: UInt64)

  /** A resend with the circumstances it happened in: how many packets had been sent, the
      index of the packet found in the slot, and the round-trip time known. */
  datatype Entry = Entry(resend: Resend, sentBefore: nat, index: nat, rtt: UInt64)

  /** A track with the history of what it sent first and what it resent. */
  datatype World = World(track: TrackState, sent: seq<RtpPacket>, log: seq<Entry>)

  /** The last of the sent packets that belongs into slot k. */
  function LastInSlot(sent: seq<RtpPacket>, k: nat): (r: Option<nat>)
    ensures r.Some? ==> r.value < |sent| && Slot(sent[r.value].sequenceNumber) == k
  {
    if sent == [] then None
    else
      var last := |sent| - 1;
      if Slot(sent[last].sequenceNumber) == k then Some(last) else LastInSlot(sent[..last], k)
  }

  /** A packet as this track's packetizer makes them. */
  predicate Own(p: RtpParams, pkt: RtpPacket) {
    WellFormed(pkt) && pkt.ssrc == p.ssrc && pkt.data[1] % 0x80 == p.payloadType % 0x80
  }

  predicate GoodStep(p: RtpParams, step: Step) {
    step.Send? ==> Own(p, step.pkt)
  }

  predicate GoodSteps(p: RtpParams, steps: seq<Step>) {
    forall i :: 0 <= i < |steps| ==> GoodStep(p, steps[i])
  }

  /** The log entry of a request that is served. */
  function NewEntry(p: RtpParams, w: World, seqnum: UInt16, now: UInt64): Entry
    requires w.track.Ok() && Serves(p, w.track, seqnum, now)
  {
    var j := LastInSlot(w.sent, Slot(seqnum));
    Entry(ResentOn(p, w.track, seqnum, now)[0], |w.sent|, if j.Some? then j.value else 0, w.track.rtt)
  }

  /** One step of a track; a request that is served adds to the log. */
  function Advance(p: RtpParams, w: World, step: Step): (w': World)
    requires w.track.Ok() && GoodStep(p, step)
    ensures w'.track.Ok()
  {
    match step
    case Send(pkt, now) => World(AfterPacket(p, w.track, pkt, now), w.sent + [pkt], w.log)
    case Ask(seqnum, now) =>
      World(AfterRequest(p, w.track, seqnum, now), w.sent,
            if Serves(p, w.track, seqnum, now) then w.log + [NewEntry(p, w, seqnum, now)] else w.log)
    case Report(lastSr, delay, now) => w.(track := AfterReport(w.track, lastSr, delay, now))
  }

  function Run(p: RtpParams, steps: seq<Step>): (w: World)
    requires GoodSteps(p, steps)
    ensures w.track.Ok()
  {
    if steps == [] then World(FreshTrack(), [], [])
    else
      var last := |steps| - 1;
      Advance(p, Run(p, steps[..last]), steps[last])
  }

  // ----- what the buffer holds -----

  /** A stored packet is a sent one, as sent or in its retransmission form. */
  ghost predicate Holds(p: RtpParams, st: Stored, pkt: RtpPacket) {
    && Own(p, pkt)
    && st.ssrc == pkt.ssrc && st.sequenceNumber == pkt.sequenceNumber
    && st.timestamp == pkt.timestamp && st.headerOffset == pkt.headerOffset
    && (if st.isRtx then p.isRtxEnabled && exists q: UInt16 :: st.data == RtxOf(p, pkt, q)
        else st.data == pkt.data)
  }

  function RtxOf(p: RtpParams, pkt: RtpPacket, q: UInt16): seq<Byte>
    requires Own(p, pkt)
  {
    RtxBytes(pkt.data, pkt.headerOffset, p.rtxSsrc, q, p.rtxPayloadType)
  }

  /** Slot k holds the last packet sent that belongs there. */
  ghost predicate SlotOk(p: RtpParams, track: TrackState, sent: seq<RtpPacket>, k: nat)
    requires k < |track.slots|
  {
    var j := LastInSlot(sent, k);
    if j.None? then track.slots[k].None?
    else track.slots[k].Some? && Holds(p, track.slots[k].value, sent[j.value])
  }

  ghost predicate BufferOk(p: RtpParams, track: TrackState, sent: seq<RtpPacket>) {
    && track.Ok()
    && forall k :: 0 <= k < SEND_BUFFER_CAPACITY ==> SlotOk(p, track, sent, k)
  }

  lemma SendKeepsBuffer(p: RtpParams, w: World, pkt: RtpPacket, now: UInt64)
    requires p.isNackEnabled && BufferOk(p, w.track, w.sent) && Own(p, pkt)
    ensures BufferOk(p, AfterPacket(p, w.track, pkt, now), w.sent + [pkt])
  {
    var track', sent' := AfterPacket(p, w.track, pkt, now), w.sent + [pkt];
    assert sent'[..|w.sent|] == w.sent;
    forall k | 0 <= k < SEND_BUFFER_CAPACITY
      ensures SlotOk(p, track', sent', k)
    {
      assert SlotOk(p, w.track, w.sent, k);
    }
  }

  /** Rewriting a stored packet leaves it the same packet, under the number given. */
  lemma RewriteHolds(p: RtpParams, st: Stored, pkt: RtpPacket, q: UInt16, now: UInt64)
    requires Holds(p, st, pkt) && p.isRtxEnabled
    ensures var st' := MadeRtx(st.(resentMillis := now), p.rtxSsrc, q, p.rtxPayloadType);
            Holds(p, st', pkt) && st'.data == RtxOf(p, pkt, q)
  {
    if st.isRtx {
      var q0: UInt16 :| st.data == RtxOf(p, pkt, q0);
      RenumberedRtx(pkt.data, pkt.headerOffset, p.rtxSsrc, q0, p.rtxPayloadType, q);
    }
    assert MadeRtx(st.(resentMillis := now), p.rtxSsrc, q, p.rtxPayloadType).data == RtxOf(p, pkt, q);
  }

  /** What the bytes of a resend must be, for the packet found in the slot. */
  ghost predicate ResendOf(p: RtpParams, data: seq<Byte>, pkt: RtpPacket, rtxSeq: UInt16) {
    Own(p, pkt) && data == if p.isRtxEnabled then RtxOf(p, pkt, rtxSeq) else pkt.data
  }

  lemma RewriteKeepsBuffer(p: RtpParams, track: TrackState, sent: seq<RtpPacket>, k: nat, now: UInt64)
    requires BufferOk(p, track, sent) && k < SEND_BUFFER_CAPACITY && track.slots[k].Some?
    ensures BufferOk(p, Rewritten(p, track, k, now), sent)
    ensures LastInSlot(sent, k).Some?
    ensures ResendOf(p, Rewritten(p, track, k, now).slots[k].value.data, sent[LastInSlot(sent, k).value],
                     track.rtxSequenceNumber)
  {
    assert SlotOk(p, track, sent, k);
    var track', j := Rewritten(p, track, k, now), LastInSlot(sent, k).value;
    if p.isRtxEnabled {
      RewriteHolds(p, track.slots[k].value, sent[j], track.rtxSequenceNumber, now);
    }
    forall l | 0 <= l < SEND_BUFFER_CAPACITY
      ensures SlotOk(p, track', sent, l)
    {
      assert SlotOk(p, track, sent, l);
    }
  }

  // ----- the log -----

  /** Entry number i: the packet found was the last one sent for its slot at that time, and
      the bytes resent are that packet's, in retransmission format number i with RTX. */
  ghost predicate EntryOk(p: RtpParams, sent: seq<RtpPacket>, e: Entry, i: nat) {
    && e.sentBefore <= |sent| && e.index < e.sentBefore
    && LastInSlot(sent[..e.sentBefore], Slot(e.resend.requested)) == Some(e.index)
    && ResendOf(p, e.resend.data, sent[e.index], i % TWO_TO_16)
  }

  function TotalSize(sent: seq<RtpPacket>): nat {
    if sent == [] then 0
    else TotalSize(sent[..|sent| - 1]) + |sent[|sent| - 1].data|
  }

  ghost predicate LogOk(p: RtpParams, sent: seq<RtpPacket>, log: seq<Entry>) {
    forall i :: 0 <= i < |log| ==> EntryOk(p, sent, log[i], i)
  }

  ghost predicate CountersOk(p: RtpParams, w: World) {
    && (p.isRtxEnabled ==> w.track.rtxSequenceNumber == |w.log| % TWO_TO_16)
    && w.track.sendPacketCount == |w.sent| % TWO_TO_32
    && w.track.sendOctets == TotalSize(w.sent) % TWO_TO_32
    && (w.sent != [] ==> w.track.maxRtpTimestamp == w.sent[|w.sent| - 1].timestamp)
  }

  /** Everything a run keeps: the buffer, the log, and the counters. */
  ghost predicate Sound(p: RtpParams, w: World) {
    BufferOk(p, w.track, w.sent) && LogOk(p, w.sent, w.log) && CountersOk(p, w)
  }

  lemma LogStays(p: RtpParams, sent: seq<RtpPacket>, pkt: RtpPacket, log: seq<Entry>)
    requires LogOk(p, sent, log)
    ensures LogOk(p, sent + [pkt], log)
  {
    forall i | 0 <= i < |log|
      ensures EntryOk(p, sent + [pkt], log[i], i)
    {
      assert EntryOk(p, sent, log[i], i);
      assert (sent + [pkt])[..log[i].sentBefore] == sent[..log[i].sentBefore];
    }
  }

  lemma SendCounts(p: RtpParams, w: World, pkt: RtpPacket, now: UInt64)
    requires w.track.Ok() && CountersOk(p, w) && Own(p, pkt)
    ensures CountersOk(p, World(AfterPacket(p, w.track, pkt, now), w.sent + [pkt], w.log))
  {
    assert (w.sent + [pkt])[..|w.sent|] == w.sent;
    AddModulo32(|w.sent|, 1);
    AddModulo32(TotalSize(w.sent), |pkt.data|);
  }

  lemma AskCounts(p: RtpParams, w: World, k: nat, now: UInt64, e: Entry)
    requires w.track.Ok() && CountersOk(p, w) && k < SEND_BUFFER_CAPACITY && w.track.slots[k].Some?
    ensures CountersOk(p, World(Rewritten(p, w.track, k, now), w.sent, w.log + [e]))
  {
    AddModulo16(|w.log|, 1);
  }

  lemma SendIsSound(p: RtpParams, w: World, pkt: RtpPacket, now: UInt64)
    requires p.isNackEnabled && Sound(p, w) && Own(p, pkt)
    ensures Sound(p, Advance(p, w, Send(pkt, now)))
  {
    SendKeepsBuffer(p, w, pkt, now);
    LogStays(p, w.sent, pkt, w.log);
    SendCounts(p, w, pkt, now);
  }

  lemma LogGrows(p: RtpParams, sent: seq<RtpPacket>, log: seq<Entry>, e: Entry)
    requires LogOk(p, sent, log) && EntryOk(p, sent, e, |log|)
    ensures LogOk(p, sent, log + [e])
  {
    hide EntryOk;
    forall i | 0 <= i < |log + [e]|
      ensures EntryOk(p, sent, (log + [e])[i], i)
    {
      if i < |log| {
        assert EntryOk(p, sent, log[i], i);
      }
    }
  }

  lemma NewEntryOk(p: RtpParams, w: World, seqnum: UInt16, now: UInt64)
    requires Sound(p, w) && Serves(p, w.track, seqnum, now)
    ensures EntryOk(p, w.sent, NewEntry(p, w, seqnum, now), |w.log|)
  {
    RewriteKeepsBuffer(p, w.track, w.sent, Slot(seqnum), now);
    assert w.sent[..|w.sent|] == w.sent;
  }

  lemma AskIsSound(p: RtpParams, w: World, seqnum: UInt16, now: UInt64)
    requires Sound(p, w)
    ensures Sound(p, Advance(p, w, Ask(seqnum, now)))
  {
    if Serves(p, w.track, seqnum, now) {
      var e := NewEntry(p, w, seqnum, now);
      RewriteKeepsBuffer(p, w.track, w.sent, Slot(seqnum), now);
      NewEntryOk(p, w, seqnum, now);
      LogGrows(p, w.sent, w.log, e);
      AskCounts(p, w, Slot(seqnum), now, e);
    }
  }

  lemma ReportIsSound(p: RtpParams, w: World, lastSr: UInt32, delay: UInt32, now: UInt64)
    requires Sound(p, w)
    ensures Sound(p, Advance(p, w, Report(lastSr, delay, now)))
  {
    forall k | 0 <= k < SEND_BUFFER_CAPACITY
      ensures SlotOk(p, AfterReport(w.track, lastSr, delay, now), w.sent, k)
    {
      assert SlotOk(p, w.track, w.sent, k);
    }
  }

  lemma StepIsSound(p: RtpParams, w: World, step: Step)
    requires p.isNackEnabled && Sound(p, w) && GoodStep(p, step)
    ensures Sound(p, Advance(p, w, step))
  {
    match step
    case Send(pkt, now) => SendIsSound(p, w, pkt, now);
    case Ask(seqnum, now) => AskIsSound(p, w, seqnum, now);
    case Report(lastSr, delay, now) => ReportIsSound(p, w, lastSr, delay, now);
  }

  /** Over every run: the buffer holds the last packet sent for each slot, every resend has
      the right bytes, RTX numbers are consecutive from 0, and the counters count first
      transmissions only. */
  lemma {:induction false} RunIsSound(p: RtpParams, steps: seq<Step>)
    requires p.isNackEnabled && GoodSteps(p, steps)
    ensures Sound(p, Run(p, steps))
    decreases |steps|
  {
    if steps != [] {
      var last := |steps| - 1;
      RunIsSound(p, steps[..last]);
      StepIsSound(p, Run(p, steps[..last]), steps[last]);
    }
  }

  /** Conservation, with or without NACK: one RTX number per resend, from 0 modulo 2^16, and packet
      and octet counters that count first transmissions, and only those, modulo 2^32. */
  lemma {:induction false} RunCounts(p: RtpParams, steps: seq<Step>)
    requires GoodSteps(p, steps)
    ensures CountersOk(p, Run(p, steps))
    decreases |steps|
  {
    hide CountersOk, Own;
    if steps == [] {
      NothingCounted(p);
    } else {
      var last := |steps| - 1;
      RunCounts(p, steps[..last]);
      StepCounts(p, Run(p, steps[..last]), steps[last]);
    }
  }

  lemma NothingCounted(p: RtpParams)
    ensures CountersOk(p, World(FreshTrack(), [], []))
  {
  }

  lemma StepCounts(p: RtpParams, w: World, step: Step)
    requires w.track.Ok() && CountersOk(p, w) && GoodStep(p, step)
    ensures CountersOk(p, Advance(p, w, step))
  {
    match step
    case Send(pkt, now) => SendCounts(p, w, pkt, now);
    case Ask(seqnum, now) =>
      if Serves(p, w.track, seqnum, now) {
        AskCounts(p, w, Slot(seqnum), now, NewEntry(p, w, seqnum, now));
      }
    case Report(lastSr, delay, now) =>
  }

  /** Step k is the last packet sent. */
  ghost predicate LastSent(steps: seq<Step>, k: nat) {
    k < |steps| && steps[k].Send? && forall i :: k < i < |steps| ==> !steps[i].Send?
  }

  lemma StepMovesStart(p: RtpParams, w: World, step: Step)
    requires w.track.Ok() && GoodStep(p, step)
    ensures var w' := Advance(p, w, step);
            if step.Send? then
              && w'.sent == w.sent + [step.pkt]
              && w'.track.maxRtpTimestamp == step.pkt.timestamp && w'.track.maxPacketMillis == step.now % TWO_TO_32
            else
              && w'.sent == w.sent && w'.track.maxRtpTimestamp == w.track.maxRtpTimestamp
              && w'.track.maxPacketMillis == w.track.maxPacketMillis
  {
    hide WellFormed, TrackState.Ok, Serves, NewEntry;
  }

  /** Only a first transmission sets the time and the timestamp a sender report starts from, and
      the last one keeps them, whatever is resent or reported since. */
  lemma {:induction false} ReportStartsFromLast(p: RtpParams, steps: seq<Step>, k: nat)
    requires GoodSteps(p, steps) && LastSent(steps, k)
    ensures var w := Run(p, steps);
            && w.sent != [] && w.sent[|w.sent| - 1] == steps[k].pkt
            && w.track.maxRtpTimestamp == steps[k].pkt.timestamp
            && w.track.maxPacketMillis == steps[k].now % TWO_TO_32
    decreases |steps|
  {
    hide Advance;
    var last := |steps| - 1;
    StepMovesStart(p, Run(p, steps[..last]), steps[last]);
    if k < last {
      ReportStartsFromLast(p, steps[..last], k);
    }
  }

  /** The last report block that quotes a sender report. */
  ghost predicate LastQuoted(steps: seq<Step>, k: nat) {
    && k < |steps| && Quotes(steps[k])
    && forall i :: k < i < |steps| ==> !Quotes(steps[i])
  }

  predicate Quotes(step: Step) {
    step.Report? && step.lastSr != 0
  }

  /** The round-trip time is that of the last block that quotes a sender report, and 100 ms
      before there is one. */
  lemma {:induction false} RttOfRun(p: RtpParams, steps: seq<Step>, k: nat)
    requires GoodSteps(p, steps)
    ensures LastQuoted(steps, k) ==>
              Run(p, steps).track.rtt == Ntp.RoundTrip(steps[k].now, steps[k].lastSr, steps[k].delaySinceLastSr)
    ensures (forall i :: 0 <= i < |steps| ==> !Quotes(steps[i])) ==> Run(p, steps).track.rtt == 100
    decreases |steps|
  {
    hide Own, TrackState.Ok;
    if steps != [] {
      RttOfRun(p, steps[..|steps| - 1], k);
    }
  }

  /** With NACK off nothing is kept, and nothing resent. */
  lemma {:induction false} NothingKept(p: RtpParams, steps: seq<Step>)
    requires GoodSteps(p, steps) && !p.isNackEnabled
    ensures var w := Run(p, steps);
            w.log == [] && forall k :: 0 <= k < SEND_BUFFER_CAPACITY ==> w.track.slots[k] == None
    decreases |steps|
  {
    hide Own;
    if steps != [] {
      NothingKept(p, steps[..|steps| - 1]);
    }
  }

  // ----- how long a packet stays in the buffer -----

  ghost predicate Consecutive(sent: seq<RtpPacket>, first: UInt16) {
    forall i :: 0 <= i < |sent| ==> sent[i].sequenceNumber == Next(first, i)
  }

  /** How many packets further on the slot of number s is used again. 65536 is not a
      multiple of 1000: the numbers from 64536 on meet their slot again only after the wrap. */
  function Lifetime(s: UInt16): nat {
    if s < 64536 then 1000 else if s < 65000 then 1536 else 536
  }

  lemma SlotReuse(s: UInt16, d: nat)
    requires 1 <= d <= Lifetime(s)
    ensures Slot(Next(s, d)) == Slot(s) <==> d == Lifetime(s)
  {
    var n := Next(s, d);
    assert n == s + d || n == s + d - TWO_TO_16;
    if s < 64536 {
      assert n == s + d;
    } else if s >= 65000 {
      assert s % SEND_BUFFER_CAPACITY == s - 65000;
    } else {
      assert s % SEND_BUFFER_CAPACITY == s - 64000;
    }
  }

  lemma {:induction false} LastIsLast(sent: seq<RtpPacket>, k: nat, j: nat)
    requires j < |sent|
    ensures LastInSlot(sent, k) == Some(j) <==>
            && Slot(sent[j].sequenceNumber) == k
            && forall l :: j < l < |sent| ==> Slot(sent[l].sequenceNumber) != k
    decreases |sent|
  {
    var last := |sent| - 1;
    if Slot(sent[last].sequenceNumber) != k && j < last {
      LastIsLast(sent[..last], k, j);
      assert forall l :: 0 <= l < last ==> sent[..last][l] == sent[l];
    }
  }

  /** Ring retention across the 16-bit wrap, exactly: after any number of consecutively
      numbered packets, packet i is still in its slot if and only if fewer than Lifetime
      packets have followed it. */
  lemma Retention(sent: seq<RtpPacket>, first: UInt16, i: nat)
    requires Consecutive(sent, first) && i < |sent|
    ensures LastInSlot(sent, Slot(sent[i].sequenceNumber)) == Some(i)
            <==> |sent| - i <= Lifetime(sent[i].sequenceNumber)
  {
    hide LastInSlot, Next;
    var s := sent[i].sequenceNumber;
    LastIsLast(sent, Slot(s), i);
    forall l | i < l < |sent|
      ensures sent[l].sequenceNumber == Next(s, l - i)
      ensures l - i <= Lifetime(s) ==> (Slot(sent[l].sequenceNumber) == Slot(s) <==> l - i == Lifetime(s))
    {
      NextNext(first, i, l - i);
      if l - i <= Lifetime(s) {
        SlotReuse(s, l - i);
      }
    }
    if |sent| - i > Lifetime(s) {
      assert Slot(sent[i + Lifetime(s)].sequenceNumber) == Slot(s);
    }
  }

  /** The last 536 packets are always there. */
  lemma LastRetained(sent: seq<RtpPacket>, first: UInt16, i: nat)
    requires Consecutive(sent, first) && i < |sent| <= i + 536
    ensures LastInSlot(sent, Slot(sent[i].sequenceNumber)) == Some(i)
  {
    Retention(sent, first, i);
  }

  // ----- 536 is tight -----

  /** The first n empty packets of a track. */
  function EmptyPackets(p: RtpParams, n: nat): (r: seq<RtpPacket>)
    ensures |r| == n
    ensures forall k :: 0 <= k < n ==> r[k] == Packet(Config(p.ssrc, p.payloadType), 0, Next(0, k), 0, [])
  {
    seq(n, k requires 0 <= k < n => Packet(Config(p.ssrc, p.payloadType), 0, Next(0, k), 0, []))
  }

  function EmptySends(p: RtpParams, n: nat): (r: seq<Step>)
    ensures |r| == n && forall k :: 0 <= k < n ==> r[k] == Send(EmptyPackets(p, n)[k], 1)
  {
    seq(n, k requires 0 <= k < n => Send(EmptyPackets(p, n)[k], 1))
  }

  lemma PacketIsOwn(p: RtpParams, marker: Byte, seqnum: UInt16, timestamp: UInt32, payload: seq<Byte>)
    ensures Own(p, Packet(Config(p.ssrc, p.payloadType), marker, seqnum, timestamp, payload))
  {
    var h := Header(Config(p.ssrc, p.payloadType), marker, seqnum, timestamp);
    assert h[2..4] == UInt16Bytes(seqnum) && h[8..12] == UInt32Bytes(p.ssrc);
    LoadOfBytes16(h + payload, 2, seqnum);
    LoadOfBytes32(h + payload, 8, p.ssrc);
  }

  /** Nothing resent yet, and every stored packet as old as the newest. */
  ghost predicate Untouched(w: World) {
    && w.track.Ok() && w.log == [] && w.track.maxRtpTimestamp == 0
    && forall k :: 0 <= k < SEND_BUFFER_CAPACITY && w.track.slots[k].Some? ==>
         w.track.slots[k].value.timestamp == 0 && w.track.slots[k].value.resentMillis == 0
  }

  lemma EmptySendUntouched(p: RtpParams, w: World, pkt: RtpPacket)
    requires Untouched(w) && Own(p, pkt) && pkt.timestamp == 0
    ensures Untouched(Advance(p, w, Send(pkt, 1))) && Advance(p, w, Send(pkt, 1)).sent == w.sent + [pkt]
  {
  }

  lemma EmptySendsAreGood(p: RtpParams, n: nat)
    ensures GoodSteps(p, EmptySends(p, n))
  {
    forall k | 0 <= k < n
      ensures GoodStep(p, EmptySends(p, n)[k])
    {
      PacketIsOwn(p, 0, Next(0, k), 0, []);
    }
  }

  lemma {:induction false} RunOfEmptySends(p: RtpParams, n: nat)
    requires GoodSteps(p, EmptySends(p, n))
    ensures Run(p, EmptySends(p, n)).sent == EmptyPackets(p, n) && Untouched(Run(p, EmptySends(p, n)))
  {
    hide Advance, Own;
    if n > 0 {
      assert EmptySends(p, n)[..n - 1] == EmptySends(p, n - 1);
      RunOfEmptySends(p, n - 1);
      var w, last := Run(p, EmptySends(p, n - 1)), EmptySends(p, n)[n - 1];
      assert GoodStep(p, last);
      EmptySendUntouched(p, w, last.pkt);
    }
  }

  lemma AskAnswered(p: RtpParams, w: World, seqnum: UInt16, j: nat)
    requires Untouched(w) && Sound(p, w) && LastInSlot(w.sent, Slot(seqnum)) == Some(j)
    ensures var w' := Advance(p, w, Ask(seqnum, 1));
            w'.sent == w.sent && |w'.log| == 1
            && w'.log[0].resend.requested == seqnum && w'.log[0].index == j
  {
    assert SlotOk(p, w.track, w.sent, Slot(seqnum));
    assert Serves(p, w.track, seqnum, 1);
  }

  /** After 65537 packets the slot of number 65000, the 537th last, holds the second number 0,
      and a request for 65000 is answered with that packet: the last 536 is as far back as
      "the packet resent is the one requested" goes. */
  lemma RetentionIsTight(p: RtpParams)
    requires p.isNackEnabled
    ensures exists steps :: GoodSteps(p, steps) && WrongPacketResent(p, steps)
  {
    hide Untouched, Sound, Advance, Own;
    var sends := EmptySends(p, 65537);
    EmptySendsAreGood(p, 65537);
    var w := Run(p, sends);
    RunOfEmptySends(p, 65537);
    RunIsSound(p, sends);
    assert w.sent[65536].sequenceNumber == 0;
    LastIsLast(w.sent, Slot(65000), 65536);
    AskAnswered(p, w, 65000, 65536);
    var steps := sends + [Ask(65000, 1)];
    assert steps[..65537] == sends && GoodSteps(p, steps);
    assert WrongPacketResent(p, steps);
  }

  /** Packet 65000 was asked for while 536 packets had followed it, and another was resent. */
  ghost predicate WrongPacketResent(p: RtpParams, steps: seq<Step>)
    requires GoodSteps(p, steps)
  {
    var w := Run(p, steps);
    && Consecutive(w.sent, 0) && |w.sent| == 65537 && |w.log| == 1
    && w.sent[|w.sent| - 537].sequenceNumber == w.log[0].resend.requested == 65000
    && w.log[0].index == 65536 && w.sent[65536].sequenceNumber == 0
  }

  // ----- what a receiver makes of a resend -----

  /** Undoing the retransmission format of what was resent gives the packet's first bytes;
      without RTX they are resent as they were. */
  ghost predicate Recovers(p: RtpParams, data: seq<Byte>, pkt: RtpPacket, rtxSeq: UInt16)
    requires Own(p, pkt)
  {
    if p.isRtxEnabled then
      && |data| == |pkt.data| + RTX_EXTRA_SIZE
      && UndoRtx(data, pkt.headerOffset, p.ssrc, p.payloadType % 0x80) == pkt.data
      && LoadUInt32BE(data, 8) == p.rtxSsrc
      && LoadUInt16BE(data, 2) == rtxSeq
      && data[1] % 0x80 == p.rtxPayloadType % 0x80
    else data == pkt.data
  }

  lemma ResendIsRecovered(p: RtpParams, data: seq<Byte>, pkt: RtpPacket, rtxSeq: UInt16)
    requires ResendOf(p, data, pkt, rtxSeq)
    ensures Recovers(p, data, pkt, rtxSeq)
  {
    if p.isRtxEnabled {
      UndoOfRtx(pkt.data, pkt.headerOffset, p.rtxSsrc, rtxSeq, p.rtxPayloadType);
      RtxIdentity(pkt.data, pkt.headerOffset, p.rtxSsrc, rtxSeq, p.rtxPayloadType);
    }
  }

  /** The main result. Over every run of packets sent, numbers requested and reports received,
      the i-th resend carries RTX number i modulo 2^16 and gives a receiver, byte for byte,
      some packet first sent before; with consecutive numbers that is the requested packet j
      if and only if j was still within its lifetime, the last 536 packets always being so.
      (The source never compares the stored number with the requested one.) */
  lemma ResendIsRight(p: RtpParams, steps: seq<Step>, i: nat, first: UInt16, j: nat)
    requires p.isNackEnabled && GoodSteps(p, steps) && i < |Run(p, steps).log|
    requires Consecutive(Run(p, steps).sent, first)
    requires j < Run(p, steps).log[i].sentBefore <= |Run(p, steps).sent|
    requires Run(p, steps).sent[j].sequenceNumber == Run(p, steps).log[i].resend.requested
    ensures var w := Run(p, steps);
            var e := w.log[i];
            && e.index < |w.sent| && Own(p, w.sent[e.index])
            && Recovers(p, e.resend.data, w.sent[e.index], i % TWO_TO_16)
            && (e.index == j <==> e.sentBefore - j <= Lifetime(e.resend.requested))
            && (e.sentBefore - j <= 536 ==> e.index == j)
  {
    RunIsSound(p, steps);
    var w := Run(p, steps);
    var e := w.log[i];
    assert EntryOk(p, w.sent, e, i);
    ResendIsRecovered(p, e.resend.data, w.sent[e.index], i % TWO_TO_16);
    Retention(w.sent[..e.sentBefore], first, j);
  }

  // ----- the throttle -----

  /** When the clock shows the time `at` or earlier in every entry, and never zero. */
  ghost predicate LoggedBy(log: seq<Entry>, at: nat) {
    forall i :: 0 <= i < |log| ==> 0 < log[i].resend.millis <= at
  }

  /** When packet `index` was last resent; 0 if never. */
  function LastResent(log: seq<Entry>, index: nat): UInt64 {
    if log == [] then 0
    else
      var last := |log| - 1;
      if log[last].index == index then log[last].resend.millis else LastResent(log[..last], index)
  }

  /** A positive clock that never goes back. */
  ghost predicate Clocked(steps: seq<Step>) {
    && (forall i :: 0 <= i < |steps| ==> 0 < steps[i].now)
    && (forall i, j :: 0 <= i < j < |steps| ==> steps[i].now <= steps[j].now)
  }

  ghost predicate Throttled(log: seq<Entry>) {
    forall a, b :: 0 <= a < b < |log| && log[a].index == log[b].index ==>
      log[b].resend.millis - log[a].resend.millis > log[b].rtt
  }

  /** Every stored packet remembers when it was last resent. */
  ghost predicate StampsOk(track: TrackState, sent: seq<RtpPacket>, log: seq<Entry>)
    requires track.Ok()
  {
    forall k :: 0 <= k < SEND_BUFFER_CAPACITY && track.slots[k].Some? ==>
      LastInSlot(sent, k).Some? &&
      track.slots[k].value.resentMillis == LastResent(log, LastInSlot(sent, k).value)
  }

  ghost predicate ThrottleOk(w: World, at: nat)
    requires w.track.Ok()
  {
    LoggedBy(w.log, at) && Throttled(w.log) && StampsOk(w.track, w.sent, w.log)
  }

  lemma {:induction false} LastResentIsLatest(log: seq<Entry>, at: nat, index: nat, a: nat)
    requires LoggedBy(log, at) && Throttled(log) && a < |log| && log[a].index == index
    ensures 0 < log[a].resend.millis <= LastResent(log, index) <= at
    decreases |log|
  {
    var last := |log| - 1;
    if log[last].index != index {
      LastResentIsLatest(log[..last], at, index, a);
    }
  }

  lemma {:induction false} NeverResent(log: seq<Entry>, index: nat)
    requires forall i :: 0 <= i < |log| ==> log[i].index != index
    ensures LastResent(log, index) == 0
    decreases |log|
  {
    if log != [] {
      NeverResent(log[..|log| - 1], index);
    }
  }

  lemma SendKeepsThrottle(p: RtpParams, w: World, pkt: RtpPacket, now: UInt64, at: nat)
    requires p.isNackEnabled && Sound(p, w) && Own(p, pkt) && ThrottleOk(w, at) && at <= now
    ensures ThrottleOk(Advance(p, w, Send(pkt, now)), now)
  {
    var w' := Advance(p, w, Send(pkt, now));
    assert w'.sent[..|w.sent|] == w.sent;
    forall i | 0 <= i < |w.log|
      ensures w.log[i].index != |w.sent|
    {
      assert EntryOk(p, w.sent, w.log[i], i);
    }
    NeverResent(w.log, |w.sent|);
    forall k | 0 <= k < SEND_BUFFER_CAPACITY && w'.track.slots[k].Some?
      ensures LastInSlot(w'.sent, k).Some?
      ensures w'.track.slots[k].value.resentMillis == LastResent(w'.log, LastInSlot(w'.sent, k).value)
    {
    }
  }

  /** The log grows by a resend of packet j that the throttle let through. */
  lemma ThrottledGrows(log: seq<Entry>, at: nat, e: Entry)
    requires LoggedBy(log, at) && Throttled(log) && at <= e.resend.millis && 0 < e.resend.millis
    requires var stamp := LastResent(log, e.index);
             stamp == 0 || (e.resend.millis - stamp) % TWO_TO_64 > e.rtt
    ensures LoggedBy(log + [e], e.resend.millis) && Throttled(log + [e])
  {
    var log' := log + [e];
    forall a, b | 0 <= a < b < |log'| && log'[a].index == log'[b].index
      ensures log'[b].resend.millis - log'[a].resend.millis > log'[b].rtt
    {
      if b == |log| {
        LastResentIsLatest(log, at, e.index, a);
      }
    }
  }

  lemma RewriteStamps(
      p: RtpParams, track: TrackState, sent: seq<RtpPacket>, log: seq<Entry>, k: nat, now: UInt64, e: Entry)
    requires track.Ok() && StampsOk(track, sent, log) && k < SEND_BUFFER_CAPACITY && track.slots[k].Some?
    requires LastInSlot(sent, k) == Some(e.index) && e.resend.millis == now
    ensures StampsOk(Rewritten(p, track, k, now), sent, log + [e])
  {
    assert (log + [e])[..|log|] == log;
    var track' := Rewritten(p, track, k, now);
    forall l | 0 <= l < SEND_BUFFER_CAPACITY && track'.slots[l].Some?
      ensures LastInSlot(sent, l).Some?
      ensures track'.slots[l].value.resentMillis == LastResent(log + [e], LastInSlot(sent, l).value)
    {
      assert l != k ==> track'.slots[l] == track.slots[l];
    }
  }

  lemma AskKeepsThrottle(p: RtpParams, w: World, seqnum: UInt16, now: UInt64, at: nat)
    requires p.isNackEnabled && Sound(p, w) && ThrottleOk(w, at) && at <= now && 0 < now
    ensures ThrottleOk(Advance(p, w, Ask(seqnum, now)), now)
  {
    hide Rewritten, LogOk, CountersOk, Throttled;
    if Serves(p, w.track, seqnum, now) {
      var e := NewEntry(p, w, seqnum, now);
      NewEntryOk(p, w, seqnum, now);
      assert SlotOk(p, w.track, w.sent, Slot(seqnum));
      ThrottledGrows(w.log, at, e);
      RewriteStamps(p, w.track, w.sent, w.log, Slot(seqnum), now, e);
    }
  }

  lemma {:induction false} RunIsThrottled(p: RtpParams, steps: seq<Step>)
    requires p.isNackEnabled && GoodSteps(p, steps) && Clocked(steps)
    ensures ThrottleOk(Run(p, steps), if steps == [] then 0 else steps[|steps| - 1].now)
    decreases |steps|
  {
    if steps != [] {
      var last := |steps| - 1;
      var w := Run(p, steps[..last]);
      RunIsThrottled(p, steps[..last]);
      RunIsSound(p, steps[..last]);
      var at := if last == 0 then 0 else steps[last - 1].now;
      match steps[last]
      case Send(pkt, now) => SendKeepsThrottle(p, w, pkt, now, at);
      case Ask(seqnum, now) => AskKeepsThrottle(p, w, seqnum, now, at);
      case Report(lastSr, delay, now) =>
    }
  }

  /** Two resends of the same stored packet are always more than the round-trip time known
      at the later one apart, so a number repeated while at most that time passes costs
      at most one resend. */
  lemma ResendsAreApart(p: RtpParams, steps: seq<Step>, a: nat, b: nat)
    requires p.isNackEnabled && GoodSteps(p, steps) && Clocked(steps)
    requires a < b < |Run(p, steps).log|
    ensures var log := Run(p, steps).log;
            log[a].index == log[b].index ==> log[b].resend.millis - log[a].resend.millis > log[b].rtt
  {
    RunIsThrottled(p, steps);
  }

  // ----- the throttle within one NACK -----

  /** Entries from `from` on were made by requests at the given times, under one round-trip time. */
  ghost predicate LoggedWithin(log: seq<Entry>, from: nat, rtt: UInt64, earliest: nat, latest: nat) {
    forall i :: from <= i < |log| ==> log[i].rtt == rtt && earliest <= log[i].resend.millis <= latest
  }

  lemma AskLogs(p: RtpParams, w: World, seqnum: UInt16, now: UInt64, from: nat, earliest: nat, latest: nat)
    requires w.track.Ok() && from <= |w.log| && earliest <= now <= latest
    requires LoggedWithin(w.log, from, w.track.rtt, earliest, latest)
    ensures var w' := Advance(p, w, Ask(seqnum, now));
            && w'.track.rtt == w.track.rtt && from <= |w'.log| && w'.log[..from] == w.log[..from]
            && LoggedWithin(w'.log, from, w.track.rtt, earliest, latest)
  {
  }

  lemma NothingLogged(w: World, earliest: nat, latest: nat)
    ensures LoggedWithin(w.log, |w.log|, w.track.rtt, earliest, latest) && w.log[..|w.log|] == w.log
  {
  }

  /** Requests change neither the round-trip time nor the older entries. */
  lemma {:induction false} AsksLog(
      p: RtpParams, front: seq<Step>, lost: seq<UInt16>, nows: seq<UInt64>, earliest: nat, latest: nat)
    requires GoodSteps(p, front) && |nows| == |lost|
    requires forall i :: 0 <= i < |nows| ==> earliest <= nows[i] <= latest
    ensures var w, w' := Run(p, front), Run(p, front + AskSteps(lost, nows));
            && w'.track.rtt == w.track.rtt && |w.log| <= |w'.log| && w'.log[..|w.log|] == w.log
            && LoggedWithin(w'.log, |w.log|, w.track.rtt, earliest, latest)
    decreases |lost|
  {
    hide Advance, LoggedWithin;
    var steps := front + AskSteps(lost, nows);
    var w := Run(p, front);
    if lost == [] {
      assert steps == front;
      NothingLogged(w, earliest, latest);
    } else {
      var last := |lost| - 1;
      AsksLog(p, front, lost[..last], nows[..last], earliest, latest);
      assert steps[..|steps| - 1] == front + AskSteps(lost[..last], nows[..last]);
      AskLogs(p, Run(p, steps[..|steps| - 1]), lost[last], nows[last], |w.log|, earliest, latest);
    }
  }

  /** A NACK handled while at most the round-trip time passes makes every packet be resent at
      most once, however often it lists its number. */
  lemma OneResendPerNack(p: RtpParams, front: seq<Step>, lost: seq<UInt16>, nows: seq<UInt64>, a: nat, b: nat)
    requires p.isNackEnabled && GoodSteps(p, front) && |nows| == |lost| > 0
    requires Clocked(front + AskSteps(lost, nows)) && nows[|lost| - 1] - nows[0] <= Run(p, front).track.rtt
    requires |Run(p, front).log| <= a < b < |Run(p, front + AskSteps(lost, nows)).log|
    ensures var log := Run(p, front + AskSteps(lost, nows)).log;
            log[a].index != log[b].index
  {
    hide Run, LoggedBy, Throttled;
    var steps := front + AskSteps(lost, nows);
    forall i | 0 <= i < |nows|
      ensures nows[0] <= nows[i] <= nows[|nows| - 1]
    {
      assert steps[|front|].now == nows[0] && steps[|front| + i].now == nows[i];
      assert steps[|front| + |nows| - 1].now == nows[|nows| - 1];
    }
    AsksLog(p, front, lost, nows, nows[0], nows[|nows| - 1]);
    ResendsAreApart(p, steps, a, b);
  }

  // ----- when a request is answered -----

  /** The request for packet j would be let through: it is at most two seconds of RTP clock
      older than the last packet sent, and was never resent or longer ago than the round-trip time. */
  ghost predicate Due(p: RtpParams, w: World, j: nat, now: UInt64)
    requires j < |w.sent|
  {
    var stamp := LastResent(w.log, j);
    && (w.sent[|w.sent| - 1].timestamp - w.sent[j].timestamp) % TWO_TO_32 <= p.clockRate * 2 % TWO_TO_32
    && (stamp == 0 || now - stamp > w.track.rtt)
  }

  lemma ServedWhenDue(p: RtpParams, w: World, seqnum: UInt16, j: nat, now: UInt64, at: nat)
    requires Sound(p, w) && ThrottleOk(w, at) && at <= now
    requires LastInSlot(w.sent, Slot(seqnum)) == Some(j)
    ensures Serves(p, w.track, seqnum, now) <==> Due(p, w, j, now)
    ensures Serves(p, w.track, seqnum, now) ==> NewEntry(p, w, seqnum, now).index == j
  {
    hide Rewritten, LastInSlot, LogOk, Throttled;
    StampInPast(w.log, at, j);
    assert SlotOk(p, w.track, w.sent, Slot(seqnum));
  }

  /** When a request is answered, in terms of the history alone: packet j, asked for within its
      lifetime, is resent, and no other, if and only if it is due. */
  lemma AskIsServed(p: RtpParams, steps: seq<Step>, first: UInt16, j: nat, now: UInt64)
    requires p.isNackEnabled && GoodSteps(p, steps) && Clocked(steps)
    requires Consecutive(Run(p, steps).sent, first)
    requires j < |Run(p, steps).sent| <= j + Lifetime(Run(p, steps).sent[j].sequenceNumber)
    requires steps[|steps| - 1].now <= now
    ensures var w := Run(p, steps);
            var s := w.sent[j].sequenceNumber;
            && (Serves(p, w.track, s, now) <==> Due(p, w, j, now))
            && (Serves(p, w.track, s, now) ==> NewEntry(p, w, s, now).index == j)
  {
    hide Sound, ThrottleOk, Due, Serves, NewEntry;
    var w := Run(p, steps);
    RunIsSound(p, steps);
    RunIsThrottled(p, steps);
    Retention(w.sent, first, j);
    ServedWhenDue(p, w, w.sent[j].sequenceNumber, j, now, steps[|steps| - 1].now);
  }

  lemma {:induction false} StampInPast(log: seq<Entry>, at: nat, index: nat)
    requires LoggedBy(log, at)
    ensures LastResent(log, index) <= at
    decreases |log|
  {
    if log != [] {
      StampInPast(log[..|log| - 1], at, index);
    }
  }

  // ----- a track without its history -----

  /** A packet whose header lies within its bytes. */
  predicate Sane(step: Step) {
    step.Send? ==> HeaderFits(step.pkt.headerOffset, step.pkt.data)
  }

  predicate AllSane(steps: seq<Step>) {
    forall i :: 0 <= i < |steps| ==> Sane(steps[i])
  }

  function After(p: RtpParams, s: TrackState, step: Step): (s': TrackState)
    requires s.Ok() && Sane(step)
    ensures s'.Ok()
  {
    match step
    case Send(pkt, now) => AfterPacket(p, s, pkt, now)
    case Ask(seqnum, now) => AfterRequest(p, s, seqnum, now)
    case Report(lastSr, delay, now) => AfterReport(s, lastSr, delay, now)
  }

  function ResentAt(p: RtpParams, s: TrackState, step: Step): seq<Resend>
    requires s.Ok()
  {
    if step.Ask? then ResentOn(p, s, step.seqnum, step.now) else []
  }

  function AfterAll(p: RtpParams, s: TrackState, steps: seq<Step>): (s': TrackState)
    requires s.Ok() && AllSane(steps)
    ensures s'.Ok()
  {
    if steps == [] then s
    else
      var last := |steps| - 1;
      After(p, AfterAll(p, s, steps[..last]), steps[last])
  }

  function ResentDuring(p: RtpParams, s: TrackState, steps: seq<Step>): seq<Resend>
    requires s.Ok() && AllSane(steps)
  {
    if steps == [] then []
    else
      var last := |steps| - 1;
      ResentDuring(p, s, steps[..last]) + ResentAt(p, AfterAll(p, s, steps[..last]), steps[last])
  }

  lemma AfterOne(p: RtpParams, s: TrackState, step: Step)
    requires s.Ok() && Sane(step)
    ensures AfterAll(p, s, [step]) == After(p, s, step) && ResentDuring(p, s, [step]) == ResentAt(p, s, step)
  {
    assert [step][..0] == [];
  }

  lemma {:induction false} InParts(p: RtpParams, s: TrackState, a: seq<Step>, b: seq<Step>)
    requires s.Ok() && AllSane(a) && AllSane(b)
    ensures AllSane(a + b)
    ensures AfterAll(p, s, a + b) == AfterAll(p, AfterAll(p, s, a), b)
    ensures ResentDuring(p, s, a + b) == ResentDuring(p, s, a) + ResentDuring(p, AfterAll(p, s, a), b)
    decreases |b|
  {
    hide AfterPacket, AfterRequest, AfterReport, ResentAt, TrackState.Ok;
    if b == [] {
      assert a + b == a;
    } else {
      var last := |b| - 1;
      assert (a + b)[..|a + b| - 1] == a + b[..last];
      InParts(p, s, a, b[..last]);
    }
  }

  function Resends(log: seq<Entry>): (r: seq<Resend>)
    ensures |r| == |log| && forall i :: 0 <= i < |log| ==> r[i] == log[i].resend
  {
    seq(|log|, i requires 0 <= i < |log| => log[i].resend)
  }

  /** The history is only watching: a run moves the track as its steps do, and the log lists
      what is resent, in order. */
  lemma {:induction false} HistoryOnlyWatches(p: RtpParams, steps: seq<Step>)
    requires GoodSteps(p, steps)
    ensures AllSane(steps) && Run(p, steps).track == AfterAll(p, FreshTrack(), steps)
    ensures Resends(Run(p, steps).log) == ResentDuring(p, FreshTrack(), steps)
    decreases |steps|
  {
    if steps != [] {
      var last := |steps| - 1;
      HistoryOnlyWatches(p, steps[..last]);
      OneLogged(p, Run(p, steps[..last]), steps[last]);
    }
  }

  lemma OneLogged(p: RtpParams, w: World, step: Step)
    requires w.track.Ok() && GoodStep(p, step)
    ensures Resends(Advance(p, w, step).log) == Resends(w.log) + ResentAt(p, w.track, step)
  {
  }

  function AskSteps(lost: seq<UInt16>, nows: seq<UInt64>): (r: seq<Step>)
    requires |nows| == |lost|
    ensures |r| == |lost| && forall i :: 0 <= i < |r| ==> r[i] == Ask(lost[i], nows[i])
  {
    seq(|lost|, i requires 0 <= i < |lost| => Ask(lost[i], nows[i]))
  }

  /** A NACK is the requests it lists, one after the other. */
  lemma {:induction false} RequestsAreSteps(p: RtpParams, s: TrackState, lost: seq<UInt16>, nows: seq<UInt64>)
    requires s.Ok() && |nows| == |lost|
    ensures AfterRequests(p, s, lost, nows) == AfterAll(p, s, AskSteps(lost, nows))
    ensures ResentOnAll(p, s, lost, nows) == ResentDuring(p, s, AskSteps(lost, nows))
    decreases |lost|
  {
    if lost != [] {
      var last := |lost| - 1;
      RequestsAreSteps(p, s, lost[..last], nows[..last]);
      assert AskSteps(lost, nows)[..last] == AskSteps(lost[..last], nows[..last]);
    }
  }
}
