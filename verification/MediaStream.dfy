/** MediaStream of media_stream.cpp: the tracks of one session, the packetizer that feeds the
    video track, and the routing of RTCP feedback to the tracks. */
module MediaStream {
  import opened Bytes
  import opened RtpPacketizer
  import opened Rtcp
  import opened StreamTrack
  import opened TrackRuns
  import ByteBuffer
  import RtxPacket

  /** What the clock shows when item j of packet i of a compound is looked at. */
  type Clock = (nat, nat) -> UInt64

  datatype MediaType = Video | Audio

  // ----- specification -----

  /** A track as a value. */
  datatype Track = Track(params: RtpParams, state: TrackState)

  function Moved(t: Track, steps: seq<Step>): (t': Track)
    requires t.state.Ok() && AllSane(steps)
    ensures t'.state.Ok() && t'.params == t.params
  {
    t.(state := AfterAll(t.params, t.state, steps))
  }

  function Times(clock: Clock, i: nat, n: nat): (r: seq<UInt64>)
    ensures |r| == n && forall j :: 0 <= j < n ==> r[j] == clock(i, j)
  {
    seq(n, j requires 0 <= j < n => clock(i, j))
  }

  /** The report blocks about this track; others, such as those about its RTX stream, are ignored. */
  function ReportSteps(p: RtpParams, blocks: seq<ReportBlock>, clock: Clock, i: nat): (r: seq<Step>)
    ensures AllSane(r)
  {
    if blocks == [] then []
    else
      var last := |blocks| - 1;
      var b := blocks[last];
      ReportSteps(p, blocks[..last], clock, i)
      + if b.sourceSsrc == p.ssrc then [Report(b.lastSr, b.delaySinceLastSr, clock(i, last))] else []
  }

  /** What packet i of a compound means for a track. */
  function PacketSteps(p: RtpParams, packet: RtcpPacket, clock: Clock, i: nat): (r: seq<Step>)
    ensures AllSane(r)
  {
    match packet
    case Nack(_, _, mediaSsrc, lost) =>
      if mediaSsrc == p.ssrc && p.isNackEnabled then AskSteps(lost, Times(clock, i, |lost|)) else []
    case ReceiverReport(_, _, blocks) => ReportSteps(p, blocks, clock, i)
    case Plain(_) => []
  }

  function FeedbackSteps(p: RtpParams, packets: seq<RtcpPacket>, clock: Clock): (r: seq<Step>)
    ensures AllSane(r)
  {
    if packets == [] then []
    else
      var last := |packets| - 1;
      FeedbackSteps(p, packets[..last], clock) + PacketSteps(p, packets[last], clock, last)
  }

  ghost predicate AllOk(tracks: map<UInt32, Track>) {
    forall x :: x in tracks ==> tracks[x].state.Ok() && tracks[x].params.ssrc == x
  }

  /** Each track takes the steps that concern it. */
  function AfterRtcp(tracks: map<UInt32, Track>, packet: RtcpPacket, clock: Clock, i: nat): (r: map<UInt32, Track>)
    requires AllOk(tracks)
    ensures AllOk(r) && r.Keys == tracks.Keys
  {
    map x | x in tracks :: Moved(tracks[x], PacketSteps(tracks[x].params, packet, clock, i))
  }

  function AfterFeedback(tracks: map<UInt32, Track>, packets: seq<RtcpPacket>, clock: Clock): (r: map<UInt32, Track>)
    requires AllOk(tracks)
    ensures AllOk(r) && r.Keys == tracks.Keys
  {
    if packets == [] then tracks
    else
      var last := |packets| - 1;
      AfterRtcp(AfterFeedback(tracks, packets[..last], clock), packets[last], clock, last)
  }

  function Datas(resends: seq<Resend>): (r: seq<seq<Byte>>)
    ensures |r| == |resends| && forall i :: 0 <= i < |r| ==> r[i] == resends[i].data
  {
    seq(|resends|, i requires 0 <= i < |resends| => resends[i].data)
  }

  /** What the observer is handed while packet i is handled: the resends of the track asked. */
  function ResentForPacket(tracks: map<UInt32, Track>, packet: RtcpPacket, clock: Clock, i: nat): seq<seq<Byte>>
    requires AllOk(tracks)
  {
    if packet.Nack? && packet.mediaSsrc in tracks then
      var t := tracks[packet.mediaSsrc];
      Datas(ResentDuring(t.params, t.state, PacketSteps(t.params, packet, clock, i)))
    else []
  }

  function ResentForFeedback(tracks: map<UInt32, Track>, packets: seq<RtcpPacket>, clock: Clock): seq<seq<Byte>>
    requires AllOk(tracks)
  {
    if packets == [] then []
    else
      var last := |packets| - 1;
      ResentForFeedback(tracks, packets[..last], clock)
      + ResentForPacket(AfterFeedback(tracks, packets[..last], clock), packets[last], clock, last)
  }

  /** Every NACK names a track of this stream: the source looks it up unchecked. */
  predicate NacksKnown(ssrcs: set<UInt32>, packets: seq<RtcpPacket>) {
    forall i :: 0 <= i < |packets| && packets[i].Nack? ==> packets[i].mediaSsrc in ssrcs
  }

  function SendSteps(packets: seq<RtpPacket>, nows: nat -> UInt64): (r: seq<Step>)
    ensures |r| == |packets| && forall i :: 0 <= i < |r| ==> r[i] == Send(packets[i], nows(i))
  {
    seq(|packets|, i requires 0 <= i < |packets| => Send(packets[i], nows(i)))
  }

  function PacketDatas(packets: seq<RtpPacket>): (r: seq<seq<Byte>>)
    ensures |r| == |packets| && forall i :: 0 <= i < |r| ==> r[i] == packets[i].data
  {
    seq(|packets|, i requires 0 <= i < |packets| => packets[i].data)
  }

  // ----- properties -----

  /** Tracks are independent: feedback moves each one as if it were the only one. */
  lemma {:induction false} FeedbackTrackByTrack(
      tracks: map<UInt32, Track>, packets: seq<RtcpPacket>, clock: Clock, x: UInt32)
    requires AllOk(tracks) && x in tracks
    ensures AfterFeedback(tracks, packets, clock)[x]
            == Moved(tracks[x], FeedbackSteps(tracks[x].params, packets, clock))
    decreases |packets|
  {
    if packets != [] {
      var last := |packets| - 1;
      var t := tracks[x];
      FeedbackTrackByTrack(tracks, packets[..last], clock, x);
      InParts(t.params, t.state, FeedbackSteps(t.params, packets[..last], clock),
              PacketSteps(t.params, packets[last], clock, last));
    }
  }

  /** What feedback means for a track, in order: the steps of packet i follow those of the packets
      before it. A NACK that names a track with NACK on is a request for each of its numbers, at
      the time that number is looked at. */
  lemma {:induction false} FeedbackInOrder(p: RtpParams, packets: seq<RtcpPacket>, clock: Clock, i: nat)
    requires i < |packets|
    ensures var steps := PacketSteps(p, packets[i], clock, i);
            && FeedbackSteps(p, packets[..i], clock) + steps <= FeedbackSteps(p, packets, clock)
            && (i == 0 ==> FeedbackSteps(p, packets[..i], clock) == [])
            && (i == |packets| - 1 ==>
                  FeedbackSteps(p, packets, clock) == FeedbackSteps(p, packets[..i], clock) + steps)
            && (packets[i].Nack? ==>
                  && |steps| == (if packets[i].mediaSsrc == p.ssrc && p.isNackEnabled then |packets[i].lost| else 0)
                  && forall j :: 0 <= j < |steps| ==> steps[j] == Ask(packets[i].lost[j], clock(i, j)))
    decreases |packets|
  {
    hide PacketSteps;
    var front := packets[..|packets| - 1];
    if i < |front| {
      FeedbackInOrder(p, front, clock, i);
      assert front[..i] == packets[..i];
    } else {
      assert front == packets[..i];
    }
    NackSteps(p, packets[i], clock, i);
  }

  lemma NackSteps(p: RtpParams, packet: RtcpPacket, clock: Clock, i: nat)
    ensures var steps := PacketSteps(p, packet, clock, i);
            packet.Nack? ==>
              && |steps| == (if packet.mediaSsrc == p.ssrc && p.isNackEnabled then |packet.lost| else 0)
              && forall j :: 0 <= j < |steps| ==> steps[j] == Ask(packet.lost[j], clock(i, j))
  {
  }

  /** Of a receiver report, each block about the track is one report, in order, at the time that
      block is looked at; other blocks are none. */
  lemma {:induction false} ReportsInOrder(p: RtpParams, blocks: seq<ReportBlock>, clock: Clock, i: nat, j: nat)
    requires j < |blocks|
    ensures var b := blocks[j];
            var steps := if b.sourceSsrc == p.ssrc then [Report(b.lastSr, b.delaySinceLastSr, clock(i, j))] else [];
            && ReportSteps(p, blocks[..j], clock, i) + steps <= ReportSteps(p, blocks, clock, i)
            && (j == 0 ==> ReportSteps(p, blocks[..j], clock, i) == [])
            && (j == |blocks| - 1 ==>
                  ReportSteps(p, blocks, clock, i) == ReportSteps(p, blocks[..j], clock, i) + steps)
    decreases |blocks|
  {
    var front := blocks[..|blocks| - 1];
    if j < |front| {
      ReportsInOrder(p, front, clock, i, j);
      assert front[..j] == blocks[..j];
    } else {
      assert front == blocks[..j];
    }
  }

  ghost predicate NoAsks(steps: seq<Step>) {
    forall i :: 0 <= i < |steps| ==> !steps[i].Ask?
  }

  lemma {:induction false} NothingAsked(p: RtpParams, s: TrackState, steps: seq<Step>)
    requires s.Ok() && AllSane(steps) && NoAsks(steps)
    ensures ResentDuring(p, s, steps) == []
    decreases |steps|
  {
    if steps != [] {
      NothingAsked(p, s, steps[..|steps| - 1]);
    }
  }

  lemma {:induction false} ReportsAskNothing(p: RtpParams, blocks: seq<ReportBlock>, clock: Clock, i: nat)
    ensures NoAsks(ReportSteps(p, blocks, clock, i))
    decreases |blocks|
  {
    if blocks != [] {
      ReportsAskNothing(p, blocks[..|blocks| - 1], clock, i);
    }
  }

  lemma DatasInParts(a: seq<Resend>, b: seq<Resend>)
    ensures Datas(a + b) == Datas(a) + Datas(b)
  {
  }

  // ----- whose packets the observer is handed -----

  /** Bytes handed to the observer, with the track they belong to. */
  datatype Handed = Handed(ssrc: UInt32, data: seq<Byte>)

  function Tagged(ssrc: UInt32, datas: seq<seq<Byte>>): (r: seq<Handed>)
    ensures |r| == |datas| && forall k :: 0 <= k < |r| ==> r[k] == Handed(ssrc, datas[k])
  {
    seq(|datas|, k requires 0 <= k < |datas| => Handed(ssrc, datas[k]))
  }

  function Untagged(hs: seq<Handed>): (r: seq<seq<Byte>>)
    ensures |r| == |hs| && forall k :: 0 <= k < |r| ==> r[k] == hs[k].data
  {
    seq(|hs|, k requires 0 <= k < |hs| => hs[k].data)
  }

  /** What belongs to track x, in order. */
  function DataFor(hs: seq<Handed>, x: UInt32): seq<seq<Byte>> {
    if hs == [] then []
    else
      var last := |hs| - 1;
      DataFor(hs[..last], x) + if hs[last].ssrc == x then [hs[last].data] else []
  }

  lemma {:induction false} DataForInParts(a: seq<Handed>, b: seq<Handed>, x: UInt32)
    ensures DataFor(a + b, x) == DataFor(a, x) + DataFor(b, x)
    decreases |b|
  {
    if b == [] {
      assert a + b == a;
    } else {
      var last := |b| - 1;
      assert (a + b)[..|a + b| - 1] == a + b[..last];
      DataForInParts(a, b[..last], x);
    }
  }

  lemma UntaggedInParts(a: seq<Handed>, b: seq<Handed>)
    ensures Untagged(a + b) == Untagged(a) + Untagged(b)
  {
  }

  lemma {:induction false} DataForTagged(ssrc: UInt32, datas: seq<seq<Byte>>, x: UInt32)
    ensures DataFor(Tagged(ssrc, datas), x) == if x == ssrc then datas else []
    ensures Untagged(Tagged(ssrc, datas)) == datas
    decreases |datas|
  {
    if datas != [] {
      var last := |datas| - 1;
      DataForTagged(ssrc, datas[..last], x);
      assert Tagged(ssrc, datas)[..last] == Tagged(ssrc, datas[..last]);
      assert datas == datas[..last] + [datas[last]];
    }
  }

  function HandedForPacket(tracks: map<UInt32, Track>, packet: RtcpPacket, clock: Clock, i: nat): seq<Handed>
    requires AllOk(tracks)
  {
    if packet.Nack? then Tagged(packet.mediaSsrc, ResentForPacket(tracks, packet, clock, i)) else []
  }

  function HandedForFeedback(tracks: map<UInt32, Track>, packets: seq<RtcpPacket>, clock: Clock): seq<Handed>
    requires AllOk(tracks)
  {
    if packets == [] then []
    else
      var last := |packets| - 1;
      HandedForFeedback(tracks, packets[..last], clock)
      + HandedForPacket(AfterFeedback(tracks, packets[..last], clock), packets[last], clock, last)
  }

  lemma OnePacketResends(tracks: map<UInt32, Track>, packet: RtcpPacket, clock: Clock, i: nat, x: UInt32)
    requires AllOk(tracks) && x in tracks
    ensures Untagged(HandedForPacket(tracks, packet, clock, i)) == ResentForPacket(tracks, packet, clock, i)
    ensures DataFor(HandedForPacket(tracks, packet, clock, i), x)
            == Datas(ResentDuring(tracks[x].params, tracks[x].state, PacketSteps(tracks[x].params, packet, clock, i)))
  {
    var t := tracks[x];
    if packet.Nack? {
      DataForTagged(packet.mediaSsrc, ResentForPacket(tracks, packet, clock, i), x);
    }
    if !packet.Nack? || packet.mediaSsrc != x {
      if packet.ReceiverReport? {
        ReportsAskNothing(t.params, packet.blocks, clock, i);
      }
      NothingAsked(t.params, t.state, PacketSteps(t.params, packet, clock, i));
    }
  }

  /** What the observer is handed for feedback, whatever tracks it asks: the resends of every
      track, each track's in its order. */
  lemma {:induction false} FeedbackResends(
      tracks: map<UInt32, Track>, packets: seq<RtcpPacket>, clock: Clock, x: UInt32)
    requires AllOk(tracks) && x in tracks
    ensures Untagged(HandedForFeedback(tracks, packets, clock)) == ResentForFeedback(tracks, packets, clock)
    ensures DataFor(HandedForFeedback(tracks, packets, clock), x)
            == Datas(ResentDuring(tracks[x].params, tracks[x].state, FeedbackSteps(tracks[x].params, packets, clock)))
    ensures var t := tracks[x];
            var resends := ResentDuring(t.params, t.state, FeedbackSteps(t.params, packets, clock));
            var datas := DataFor(HandedForFeedback(tracks, packets, clock), x);
            |datas| == |resends| && forall k :: 0 <= k < |datas| ==> datas[k] == resends[k].data
    decreases |packets|
  {
    hide PacketSteps, ResentForPacket, AfterRtcp, HandedForPacket, ResentDuring;
    if packets == [] {
      NothingResent(tracks[x]);
    } else {
      var last := |packets| - 1;
      var front, t := packets[..last], tracks[x];
      var steps, more := FeedbackSteps(t.params, front, clock), PacketSteps(t.params, packets[last], clock, last);
      var tracks' := AfterFeedback(tracks, front, clock);
      FeedbackResends(tracks, front, clock, x);
      FeedbackTrackByTrack(tracks, front, clock, x);
      OnePacketResends(tracks', packets[last], clock, last, x);
      DataForInParts(HandedForFeedback(tracks, front, clock), HandedForPacket(tracks', packets[last], clock, last), x);
      UntaggedInParts(HandedForFeedback(tracks, front, clock), HandedForPacket(tracks', packets[last], clock, last));
      InParts(t.params, t.state, steps, more);
      DatasInParts(ResentDuring(t.params, t.state, steps),
                   ResentDuring(t.params, AfterAll(t.params, t.state, steps), more));
    }
  }

  /** What is handed over belongs to tracks of the stream. */
  ghost predicate OfTracks(hs: seq<Handed>, ssrcs: set<UInt32>) {
    forall k :: 0 <= k < |hs| ==> hs[k].ssrc in ssrcs
  }

  lemma {:induction false} OnlyTracksResend(tracks: map<UInt32, Track>, packets: seq<RtcpPacket>, clock: Clock)
    requires AllOk(tracks) && NacksKnown(tracks.Keys, packets)
    ensures OfTracks(HandedForFeedback(tracks, packets, clock), tracks.Keys)
    decreases |packets|
  {
    hide ResentForPacket, AfterRtcp, AllOk;
    if packets != [] {
      OnlyTracksResend(tracks, packets[..|packets| - 1], clock);
    }
  }

  lemma NothingResent(t: Track)
    requires t.state.Ok()
    ensures Datas(ResentDuring(t.params, t.state, [])) == []
  {
  }

  function AfterReports(
      tracks: map<UInt32, Track>, blocks: seq<ReportBlock>, clock: Clock, i: nat): (r: map<UInt32, Track>)
    requires AllOk(tracks)
    ensures AllOk(r) && r.Keys == tracks.Keys
  {
    map x | x in tracks :: Moved(tracks[x], ReportSteps(tracks[x].params, blocks, clock, i))
  }

  lemma OneMoreStep(t: Track, blocks: seq<ReportBlock>, clock: Clock, i: nat)
    requires t.state.Ok() && blocks != []
    ensures var last := |blocks| - 1;
            var b := blocks[last];
            var before := Moved(t, ReportSteps(t.params, blocks[..last], clock, i));
            Moved(t, ReportSteps(t.params, blocks, clock, i)) ==
              if b.sourceSsrc == t.params.ssrc then
                before.(state := AfterReport(before.state, b.lastSr, b.delaySinceLastSr, clock(i, last)))
              else before
  {
    var last := |blocks| - 1;
    var front := ReportSteps(t.params, blocks[..last], clock, i);
    var steps := ReportSteps(t.params, blocks, clock, i);
    if blocks[last].sourceSsrc == t.params.ssrc {
      assert steps[..|front|] == front;
    } else {
      assert steps == front;
    }
  }

  /** One more block concerns one track at most. */
  lemma OneMoreReport(tracks: map<UInt32, Track>, blocks: seq<ReportBlock>, clock: Clock, i: nat)
    requires AllOk(tracks) && blocks != []
    ensures var last := |blocks| - 1;
            var b := blocks[last];
            var before := AfterReports(tracks, blocks[..last], clock, i);
            AfterReports(tracks, blocks, clock, i) ==
              if b.sourceSsrc in tracks then
                var t := before[b.sourceSsrc];
                before[b.sourceSsrc := t.(state := AfterReport(t.state, b.lastSr, b.delaySinceLastSr, clock(i, last)))]
              else before
  {
    hide Moved, ReportSteps, AfterReport;
    forall x | x in tracks {
      OneMoreStep(tracks[x], blocks, clock, i);
    }
  }

  /** StreamTrack::ReceiveNack on a track as a value, for a NACK that names it. */
  function Nacked(t: Track, lost: seq<UInt16>, nows: seq<UInt64>): Track
    requires t.state.Ok() && |nows| == |lost|
  {
    if t.params.isNackEnabled then t.(state := AfterRequests(t.params, t.state, lost, nows)) else t
  }

  function NackResends(t: Track, lost: seq<UInt16>, nows: seq<UInt64>): seq<Resend>
    requires t.state.Ok() && |nows| == |lost|
  {
    if t.params.isNackEnabled then ResentOnAll(t.params, t.state, lost, nows) else []
  }

  /** A NACK moves the track it names and makes it resend. */
  lemma NackMovesOne(tracks: map<UInt32, Track>, packet: RtcpPacket, clock: Clock, i: nat)
    requires AllOk(tracks) && packet.Nack? && packet.mediaSsrc in tracks
    ensures var x, nows := packet.mediaSsrc, Times(clock, i, |packet.lost|);
            && AfterRtcp(tracks, packet, clock, i) == tracks[x := Nacked(tracks[x], packet.lost, nows)]
            && ResentForPacket(tracks, packet, clock, i) == Datas(NackResends(tracks[x], packet.lost, nows))
  {
    var t, nows := tracks[packet.mediaSsrc], Times(clock, i, |packet.lost|);
    RequestsAreSteps(t.params, t.state, packet.lost, nows);
  }

  lemma ReportsMove(tracks: map<UInt32, Track>, packet: RtcpPacket, clock: Clock, i: nat)
    requires AllOk(tracks) && packet.ReceiverReport?
    ensures AfterRtcp(tracks, packet, clock, i) == AfterReports(tracks, packet.blocks, clock, i)
    ensures AfterReports(tracks, [], clock, i) == tracks
  {
  }

  lemma PlainMovesNone(tracks: map<UInt32, Track>, packet: RtcpPacket, clock: Clock, i: nat)
    requires AllOk(tracks) && packet.Plain?
    ensures AfterRtcp(tracks, packet, clock, i) == tracks
  {
  }

  // ----- sender reports -----

  /** Every key once, in some order. */
  ghost predicate Enumerates(order: seq<UInt32>, keys: set<UInt32>) {
    && (forall x :: x in order <==> x in keys)
    && (forall i, j :: 0 <= i < j < |order| ==> order[i] != order[j])
  }

  function OnWire(report: Option<SenderReport>): Option<seq<Byte>> {
    if report.None? then None else Some(SenderReportBytes(report.value))
  }

  /** What a timer round hands to the observer, the tracks visited in the given order. */
  function SenderReports(tracks: map<UInt32, Track>, order: seq<UInt32>, now: UInt64): seq<seq<Byte>>
    requires forall k :: 0 <= k < |order| ==> order[k] in tracks
  {
    if order == [] then []
    else
      var last := |order| - 1;
      var report := OnWire(SenderReportOf(tracks[order[last]].params, tracks[order[last]].state, now));
      SenderReports(tracks, order[..last], now) + if report.None? then [] else [report.value]
  }

  predicate HasSent(tracks: map<UInt32, Track>, x: UInt32)
    requires x in tracks
  {
    tracks[x].state.sendPacketCount != 0
  }

  /** The places in the order of the tracks that have sent something. */
  function Senders(tracks: map<UInt32, Track>, order: seq<UInt32>): (at: seq<nat>)
    requires forall k :: 0 <= k < |order| ==> order[k] in tracks
    ensures forall i :: 0 <= i < |at| ==> at[i] < |order| && HasSent(tracks, order[at[i]])
    ensures forall i, j :: 0 <= i < j < |at| ==> at[i] < at[j]
    ensures forall k :: 0 <= k < |order| && HasSent(tracks, order[k]) ==> k in at
  {
    if order == [] then []
    else
      var last := |order| - 1;
      var front := Senders(tracks, order[..last]);
      if HasSent(tracks, order[last]) then front + [last] else front
  }

  /** A timer round sends one report for each track in the order that has sent something, entry
      by entry, and nothing else. */
  lemma {:induction false} RoundReports(tracks: map<UInt32, Track>, order: seq<UInt32>, now: UInt64)
    requires forall k :: 0 <= k < |order| ==> order[k] in tracks
    ensures var reports, at := SenderReports(tracks, order, now), Senders(tracks, order);
            && |reports| == |at|
            && forall i :: 0 <= i < |at| ==>
                 var t := tracks[order[at[i]]];
                 && SenderReportOf(t.params, t.state, now).Some?
                 && reports[i] == SenderReportBytes(SenderReportOf(t.params, t.state, now).value)
    decreases |order|
  {
    hide SenderReportBytes;
    if order != [] {
      RoundReports(tracks, order[..|order| - 1], now);
    }
  }

  /** Packets whose headers lie within their bytes. */
  ghost predicate Sendable(packets: seq<RtpPacket>) {
    forall k :: 0 <= k < |packets| ==> RtxPacket.HeaderFits(packets[k].headerOffset, packets[k].data)
  }

  ghost predicate AllOf(packets: seq<RtpPacket>, ssrc: UInt32) {
    forall k :: 0 <= k < |packets| ==> packets[k].ssrc == ssrc
  }

  lemma FrameIsSendable(c: Config, frame: seq<Byte>, seqnum: UInt16, timestamp: UInt32)
    ensures Sendable(FramePackets(c, frame, seqnum, timestamp))
    ensures AllOf(FramePackets(c, frame, seqnum, timestamp), c.ssrc)
  {
  }

  /** A track that has sent the packets. */
  ghost function AfterSends(t: Track, packets: seq<RtpPacket>, nows: nat -> UInt64): (t': Track)
    requires t.state.Ok() && Sendable(packets)
    ensures t'.state.Ok() && t'.params == t.params
  {
    Moved(t, SendSteps(packets, nows))
  }

  /** The tracks when x has sent the packets. */
  ghost function Fed(
      tracks: map<UInt32, Track>, x: UInt32, packets: seq<RtpPacket>, nows: nat -> UInt64): map<UInt32, Track>
    requires AllOk(tracks) && x in tracks && Sendable(packets)
  {
    tracks[x := AfterSends(tracks[x], packets, nows)]
  }

  lemma NothingFed(t: Track, nows: nat -> UInt64)
    requires t.state.Ok()
    ensures AfterSends(t, [], nows) == t && PacketDatas([]) == []
  {
  }

  lemma OneMoreSend(t: Track, packets: seq<RtpPacket>, nows: nat -> UInt64, i: nat)
    requires t.state.Ok() && i < |packets| && Sendable(packets)
    ensures Sendable(packets[..i]) && Sendable(packets[..i + 1])
    ensures Moved(AfterSends(t, packets[..i], nows), [Send(packets[i], nows(i))])
            == AfterSends(t, packets[..i + 1], nows)
    ensures PacketDatas(packets[..i + 1]) == PacketDatas(packets[..i]) + [packets[i].data]
  {
    var front, last := SendSteps(packets[..i], nows), Send(packets[i], nows(i));
    assert SendSteps(packets[..i + 1], nows) == front + [last];
    InParts(t.params, t.state, front, [last]);
  }

  // ----- the stream -----

  /** Whom an object of the stream belongs to. */
  datatype Owner = Feed | OfTrack(ssrc: UInt32)

  ghost predicate Belong(objects: set<object>, owner: map<object, Owner>, who: Owner) {
    forall o :: o in objects ==> o in owner && owner[o] == who
  }

  ghost function Assigned(owner: map<object, Owner>, objects: set<object>, who: Owner): (r: map<object, Owner>)
    ensures r.Keys == owner.Keys + objects
    ensures forall o :: o in r ==> r[o] == if o in objects then who else owner[o]
  {
    map o | o in owner.Keys + objects :: if o in objects then who else owner[o]
  }

  lemma AllOkWith(states: map<UInt32, Track>, t: Track)
    requires AllOk(states) && t.state.Ok()
    ensures AllOk(states[t.params.ssrc := t])
  {
  }

  lemma AllOkAt(states: map<UInt32, Track>, x: UInt32)
    requires AllOk(states) && x in states
    ensures states[x].state.Ok() && states[x].params.ssrc == x
  {
  }

  /** The state of a track that is valid. */
  ghost function StateOf(t: StreamTrack): (s: Option<TrackState>)
    reads t, t.Repr
    ensures s.Some? ==> s.value.Ok()
  {
    if t.Valid() then Some(t.View()) else None
  }

  /** StreamTrack::ReceiveNack for a NACK that names the track, and what it resends. */
  method NackAndResend(track: StreamTrack, lost: seq<UInt16>, nows: seq<UInt64>) returns (resends: seq<Resend>)
    requires track.Valid() && |nows| == |lost|
    modifies track.Repr
    ensures track.Valid() && track.Repr == old(track.Repr)
    ensures Track(track.params, track.View()) == Nacked(Track(track.params, old(track.View())), lost, nows)
    ensures resends == NackResends(Track(track.params, old(track.View())), lost, nows)
  {
    hide StreamTrack.Valid, StreamTrack.View, AfterRequests, ResentOnAll;
    var before := |track.resent|;
    track.ReceiveNack(track.params.ssrc, lost, nows);
    resends := track.resent[before..];
  }

  class MediaStream {
    var tracks: map<UInt32, StreamTrack>
    var packetizer: H264RtpPacketizer?
    /** The RTP packets handed to the observer so far. */
    var sent: seq<seq<Byte>>
    /** The RTCP packets handed to the observer so far. */
    var sentRtcp: seq<seq<Byte>>
    /** The tracks as values. */
    ghost var states: map<UInt32, Track>
    /** The objects of the tracks and the packetizer. */
    ghost var owner: map<object, Owner>

    /** The objects of track x. */
    ghost function Objects(x: UInt32): set<object>
      reads `owner
    {
      set o | o in owner && owner[o] == OfTrack(x)
    }

    ghost predicate OwnsTrack(x: UInt32)
      reads `tracks, `states, `owner, owner.Keys
      requires x in tracks && x in states
    {
      && tracks[x] in owner && Belong(tracks[x].Repr, owner, OfTrack(x))
      && states[x].params == tracks[x].params && tracks[x].params.ssrc == x
      && StateOf(tracks[x]) == Some(states[x].state)
    }

    ghost predicate OwnsPacketizer()
      reads `tracks, `packetizer, `owner, owner.Keys
    {
      packetizer != null ==>
        && packetizer in owner && packetizer.rtpBuf in owner
        && owner[packetizer] == owner[packetizer.rtpBuf] == Feed
        && packetizer.Valid() && packetizer.config.ssrc in tracks
    }

    ghost predicate Valid()
      reads `tracks, `states, `packetizer, `owner, owner.Keys
      ensures Valid() ==> this !in owner && states.Keys == tracks.Keys && AllOk(states)
      ensures Valid() && packetizer != null ==>
        packetizer.config.ssrc in tracks && packetizer in owner && owner[packetizer] == Feed
    {
      && this !in owner && states.Keys == tracks.Keys && AllOk(states)
      && (forall x :: x in tracks ==> OwnsTrack(x))
      && OwnsPacketizer()
    }

    /** Valid but for track x. */
    ghost predicate ValidBut(x: UInt32)
      reads `tracks, `states, `packetizer, `owner, owner.Keys
    {
      && this !in owner && x in tracks && states.Keys + {x} == tracks.Keys && AllOk(states)
      && (forall y :: y in tracks && y != x ==> OwnsTrack(y))
      && OwnsPacketizer()
    }

    /** Takes note of what track x has become; its objects are its own or of no one. */
    ghost method Adopt(x: UInt32, state: TrackState)
      requires ValidBut(x) && StateOf(tracks[x]) == Some(state) && tracks[x].params.ssrc == x
      requires tracks[x] in tracks[x].Repr && this !in tracks[x].Repr
      requires forall o :: o in tracks[x].Repr && o in owner ==> owner[o] == OfTrack(x)
      modifies `states, `owner
      ensures Valid() && owner.Keys == old(owner.Keys) + tracks[x].Repr
      ensures states == old(states)[x := Track(tracks[x].params, state)]
    {
      hide StateOf, AllOk, TrackState.Ok, OwnsTrack, OwnsPacketizer;
      Claim(x);
      Record(x, state);
    }

    ghost method Claim(x: UInt32)
      requires ValidBut(x) && this !in tracks[x].Repr
      requires forall o :: o in tracks[x].Repr && o in owner ==> owner[o] == OfTrack(x)
      modifies `owner
      ensures ValidBut(x) && owner.Keys == old(owner.Keys) + tracks[x].Repr
      ensures Belong(tracks[x].Repr, owner, OfTrack(x))
    {
      hide StateOf, AllOk, TrackState.Ok, Assigned;
      owner := Assigned(owner, tracks[x].Repr, OfTrack(x));
    }

    ghost method Record(x: UInt32, state: TrackState)
      requires ValidBut(x) && StateOf(tracks[x]) == Some(state) && tracks[x].params.ssrc == x
      requires tracks[x] in tracks[x].Repr && Belong(tracks[x].Repr, owner, OfTrack(x))
      modifies `states
      ensures Valid() && states == old(states)[x := Track(tracks[x].params, state)]
    {
      hide StateOf, AllOk, TrackState.Ok;
      AllOkWith(states, Track(tracks[x].params, state));
      states := states[x := Track(tracks[x].params, state)];
    }

    /** Every object added since is new. */
    twostate predicate Grown()
      reads `owner
    {
      forall o :: o in owner && o !in old(owner) ==> fresh(o)
    }

    constructor ()
      ensures Valid() && owner == map[]
      ensures states == map[] && packetizer == null && sent == [] && sentRtcp == []
    {
      tracks, states, owner := map[], map[], map[];
      packetizer := null;
      sent, sentRtcp := [], [];
    }

    /** A further track of the same SSRC replaces the first, another video track the packetizer. */
    method AddStreamTrack(params: RtpParams, mediaType: MediaType)
      requires Valid()
      modifies this
      ensures Valid() && Grown()
      ensures states == old(states)[params.ssrc := Track(params, FreshTrack())]
      ensures if mediaType.Video? then
                && packetizer != null && fresh(packetizer) && packetizer.seqnum == 0
                && packetizer.config == Config(params.ssrc, params.payloadType)
              else packetizer == old(packetizer)
      ensures sent == old(sent) && sentRtcp == old(sentRtcp)
    {
      PutTrack(params);
      if mediaType.Video? {
        PutPacketizer(params);
      }
    }

    method PutTrack(params: RtpParams)
      requires Valid()
      modifies `tracks, `states, `owner
      ensures Valid() && Grown()
      ensures states == old(states)[params.ssrc := Track(params, FreshTrack())]
    {
      hide FreshTrack, Valid, StreamTrack.Valid, StreamTrack.View, AllOk, TrackState.Ok;
      var track := new StreamTrack(params);
      ReplaceTrack(track, FreshTrack());
    }

    /** A track whose objects are new to the stream takes its place under its SSRC. */
    method ReplaceTrack(track: StreamTrack, ghost state: TrackState)
      requires Valid() && StateOf(track) == Some(state) && track in track.Repr && this !in track.Repr
      requires forall o :: o in track.Repr ==> o !in owner
      modifies `tracks, `states, `owner
      ensures Valid() && owner.Keys == old(owner.Keys) + track.Repr
      ensures states == old(states)[track.params.ssrc := Track(track.params, state)]
    {
      hide StateOf, AllOk, TrackState.Ok;
      tracks := tracks[track.params.ssrc := track];
      Adopt(track.params.ssrc, state);
    }

    method PutPacketizer(params: RtpParams)
      requires Valid() && params.ssrc in tracks
      modifies `packetizer, `owner
      ensures Valid() && Grown()
      ensures packetizer != null && fresh(packetizer) && packetizer.seqnum == 0
      ensures packetizer.config == Config(params.ssrc, params.payloadType)
    {
      hide Valid, AllOk, TrackState.Ok;
      var feeder := new H264RtpPacketizer(params.ssrc, params.payloadType);
      ClaimFeed({feeder, feeder.rtpBuf});
      UsePacketizer(feeder);
    }

    /** Objects new to the stream become the packetizer's. */
    ghost method ClaimFeed(objects: set<object>)
      requires Valid() && this !in objects && forall o :: o in objects ==> o !in owner
      modifies `owner
      ensures Valid() && owner.Keys == old(owner.Keys) + objects && Belong(objects, owner, Feed)
    {
      hide StateOf, AllOk, TrackState.Ok, Assigned;
      owner := Assigned(owner, objects, Feed);
    }

    method UsePacketizer(feeder: H264RtpPacketizer)
      requires Valid() && feeder.Valid() && feeder.config.ssrc in tracks
      requires Belong({feeder, feeder.rtpBuf}, owner, Feed)
      modifies `packetizer
      ensures Valid() && packetizer == feeder
    {
      hide OwnsTrack;
      packetizer := feeder;
    }

    method RtpPacketSent(pkt: RtpPacket, now: UInt64)
      requires Valid() && pkt.ssrc in tracks && RtxPacket.HeaderFits(pkt.headerOffset, pkt.data)
      modifies Objects(pkt.ssrc), `states, `owner
      ensures Valid() && Grown()
      ensures var t := old(states)[pkt.ssrc];
              states == old(states)[pkt.ssrc := t.(state := AfterPacket(t.params, t.state, pkt, now))]
    {
      hide StreamTrack.Valid, StreamTrack.View, AfterPacket, AllOk, TrackState.Ok;
      tracks[pkt.ssrc].ReceivePacket(pkt, now);
      Adopt(pkt.ssrc, tracks[pkt.ssrc].View());
    }

    method OnRtpPacketGenerated(pkt: RtpPacket, now: UInt64)
      requires Valid() && pkt.ssrc in tracks && RtxPacket.HeaderFits(pkt.headerOffset, pkt.data)
      modifies Objects(pkt.ssrc), `states, `owner, `sent
      ensures Valid() && Grown()
      ensures states == old(states)[pkt.ssrc := Moved(old(states)[pkt.ssrc], [Send(pkt, now)])]
      ensures sent == old(sent) + [pkt.data]
    {
      hide AfterAll, AfterPacket, AllOk, TrackState.Ok, StateOf;
      AfterOne(states[pkt.ssrc].params, states[pkt.ssrc].state, Send(pkt, now));
      sent := sent + [pkt.data];
      RtpPacketSent(pkt, now);
    }

    method TrackNack(ssrc: UInt32, lost: seq<UInt16>, nows: seq<UInt64>) returns (resends: seq<Resend>)
      requires Valid() && ssrc in tracks && |nows| == |lost|
      modifies Objects(ssrc), `states, `owner
      ensures Valid() && owner.Keys == old(owner.Keys)
      ensures states == old(states)[ssrc := Nacked(old(states)[ssrc], lost, nows)]
      ensures resends == NackResends(old(states)[ssrc], lost, nows)
    {
      hide StreamTrack.Valid, StreamTrack.View, AllOk, TrackState.Ok, Nacked, NackResends;
      resends := NackAndResend(tracks[ssrc], lost, nows);
      Adopt(ssrc, tracks[ssrc].View());
    }

    method HandleNack(packet: RtcpPacket, clock: Clock, i: nat)
      requires Valid() && packet.Nack? && packet.mediaSsrc in tracks
      modifies Objects(packet.mediaSsrc), `states, `owner, `sent
      ensures Valid() && owner.Keys == old(owner.Keys)
      ensures states == AfterRtcp(old(states), packet, clock, i)
      ensures sent == old(sent) + ResentForPacket(old(states), packet, clock, i)
    {
      hide AllOk, TrackState.Ok, OwnsTrack, AfterRtcp, ResentForPacket, Nacked, NackResends, Datas, Times;
      NackMovesOne(states, packet, clock, i);
      var resends := TrackNack(packet.mediaSsrc, packet.lost, Times(clock, i, |packet.lost|));
      sent := sent + Datas(resends);
    }

    method TrackReport(block: ReportBlock, now: UInt64)
      requires Valid() && block.sourceSsrc in tracks
      modifies Objects(block.sourceSsrc), `states, `owner
      ensures Valid() && owner.Keys == old(owner.Keys)
      ensures var t := old(states)[block.sourceSsrc];
              states == old(states)[block.sourceSsrc :=
                t.(state := AfterReport(t.state, block.lastSr, block.delaySinceLastSr, now))]
    {
      hide StreamTrack.Valid, StreamTrack.View, AllOk, TrackState.Ok, AfterReport;
      var track := tracks[block.sourceSsrc];
      track.ReceiveReceiverReport(block.lastSr, block.delaySinceLastSr, now);
      Adopt(block.sourceSsrc, track.View());
    }

    method HandleReports(packet: RtcpPacket, clock: Clock, i: nat)
      requires Valid() && packet.ReceiverReport?
      modifies owner.Keys - {packetizer}, `states, `owner
      ensures Valid() && owner.Keys == old(owner.Keys)
      ensures states == AfterRtcp(old(states), packet, clock, i)
    {
      hide Valid, AllOk, TrackState.Ok, AfterRtcp, AfterReports, AfterReport;
      ReportsMove(states, packet, clock, i);
      for j := 0 to |packet.blocks|
        invariant Valid() && owner.Keys == old(owner.Keys)
        invariant states == AfterReports(old(states), packet.blocks[..j], clock, i)
      {
        var block := packet.blocks[j];
        OneMoreReport(old(states), packet.blocks[..j + 1], clock, i);
        assert packet.blocks[..j + 1][..j] == packet.blocks[..j];
        if block.sourceSsrc in tracks {
          TrackReport(block, clock(i, j));
        }
      }
      assert packet.blocks[..|packet.blocks|] == packet.blocks;
    }

    method HandlePacket(packet: RtcpPacket, clock: Clock, i: nat)
      requires Valid() && (packet.Nack? ==> packet.mediaSsrc in tracks)
      modifies owner.Keys - {packetizer}, `states, `owner, `sent
      ensures Valid() && owner.Keys == old(owner.Keys)
      ensures states == AfterRtcp(old(states), packet, clock, i)
      ensures sent == old(sent) + ResentForPacket(old(states), packet, clock, i)
    {
      hide Valid, AllOk, TrackState.Ok, AfterRtcp;
      match packet {
        case Nack(_, _, _, _) => HandleNack(packet, clock, i);
        case ReceiverReport(_, _, _) => HandleReports(packet, clock, i);
        case Plain(_) => PlainMovesNone(states, packet, clock, i);
      }
    }

    /** RTCP from the peer. What does not parse as a whole changes nothing. */
    method ReceiveRctp(data: seq<Byte>, clock: Clock)
      requires Valid()
      requires ParseAll(data, 0).Some? ==> NacksKnown(tracks.Keys, ParseAll(data, 0).value)
      modifies owner.Keys - {packetizer}, `states, `owner, `sent
      ensures Valid() && owner.Keys == old(owner.Keys)
      ensures ParseAll(data, 0).None? ==> states == old(states) && sent == old(sent)
      ensures ParseAll(data, 0).Some? ==>
        && states == AfterFeedback(old(states), ParseAll(data, 0).value, clock)
        && sent == old(sent) + ResentForFeedback(old(states), ParseAll(data, 0).value, clock)
    {
      hide Valid, AllOk, TrackState.Ok, AfterRtcp, ParseAll, ResentForPacket;
      var ok, packets := ParseCompound(data);
      if !ok {
        return;
      }
      for i := 0 to |packets|
        invariant Valid() && owner.Keys == old(owner.Keys)
        invariant states == AfterFeedback(old(states), packets[..i], clock)
        invariant sent == old(sent) + ResentForFeedback(old(states), packets[..i], clock)
      {
        HandlePacket(packets[i], clock, i);
        assert packets[..i + 1][..i] == packets[..i];
      }
      assert packets[..|packets|] == packets;
    }

    /** H264RtpPacketizer::Pack, and the packets it generates. */
    method Packetize(frame: seq<Byte>, timestamp: UInt32) returns (packets: seq<RtpPacket>)
      requires Valid() && packetizer != null
      modifies packetizer, packetizer.rtpBuf
      ensures Valid() && packets == FramePackets(packetizer.config, frame, old(packetizer.seqnum), timestamp)
      ensures packetizer.seqnum == Next(old(packetizer.seqnum), |packets|)
    {
      hide AllOk, TrackState.Ok, StateOf;
      var before := |packetizer.generated|;
      packetizer.Pack(frame, timestamp);
      packets := packetizer.generated[before..];
    }

    /** A frame from the encoder: packetized, sent, and kept for retransmission. */
    method ReceiveH264Packet(frame: seq<Byte>, timestamp: UInt32, nows: nat -> UInt64)
      requires Valid() && packetizer != null
      modifies owner.Keys, `states, `owner, `sent
      ensures Valid() && Grown()
      ensures var x := old(packetizer.config.ssrc);
              var packets := old(FramePackets(packetizer.config, frame, packetizer.seqnum, timestamp));
              && old(packetizer).seqnum == Next(old(packetizer.seqnum), |packets|)
              && Sendable(packets) && states == Fed(old(states), x, packets, nows)
              && sent == old(sent) + PacketDatas(packets)
    {
      assert OwnsPacketizer();
      hide Valid, AllOk, TrackState.Ok, Fed, FramePackets, Sendable, AllOf;
      var packets := Packetize(frame, timestamp);
      FrameIsSendable(packetizer.config, frame, old(packetizer.seqnum), timestamp);
      SendAll(packetizer.config.ssrc, packets, nows);
    }

    /** The packetizer's observer: each packet is sent and noted by its track. */
    method SendAll(x: UInt32, packets: seq<RtpPacket>, nows: nat -> UInt64)
      requires Valid() && x in tracks && Sendable(packets) && AllOf(packets, x)
      modifies owner.Keys - {packetizer}, `states, `owner, `sent
      ensures Valid() && Grown()
      ensures states == Fed(old(states), x, packets, nows)
      ensures sent == old(sent) + PacketDatas(packets)
    {
      hide Valid, AllOk, TrackState.Ok, Moved, AfterSends;
      AllOkAt(states, x);
      NothingFed(states[x], nows);
      for i := 0 to |packets|
        invariant Valid() && Grown()
        invariant Sendable(packets[..i])
        invariant states == Fed(old(states), x, packets[..i], nows)
        invariant sent == old(sent) + PacketDatas(packets[..i])
      {
        OnRtpPacketGenerated(packets[i], nows(i));
        OneMoreSend(old(states)[x], packets, nows, i);
      }
      assert packets[..|packets|] == packets;
    }

    /** The sender report of track x as bytes, if there is one. */
    method MakeSenderReport(x: UInt32, now: UInt64) returns (report: Option<seq<Byte>>)
      requires Valid() && x in tracks
      ensures report == OnWire(SenderReportOf(states[x].params, states[x].state, now))
    {
      hide AllOk, TrackState.Ok, SenderReportBytes, SenderReportOf, StreamTrack.Valid, StreamTrack.View;
      assert OwnsTrack(x);
      var sr := tracks[x].CreateRtcpSenderReport(now);
      if sr.None? {
        return None;
      }
      var buffer := new Byte[1500];
      var writer := new ByteBuffer.ByteWriter(buffer);
      var ok := SerializeSenderReport(writer, sr.value);
      report := if ok then Some(writer.Written()) else None;
      assert [] + SenderReportBytes(sr.value) == SenderReportBytes(sr.value);
    }

    /** Every 200 ms. `order` is the iteration order of the hash table of tracks. */
    method OnTimerTimeout(order: seq<UInt32>, now: UInt64)
      requires Valid() && Enumerates(order, tracks.Keys)
      modifies `sentRtcp
      ensures Valid()
      ensures sentRtcp == old(sentRtcp) + SenderReports(states, order, now)
    {
      hide Valid, AllOk, TrackState.Ok, SenderReportBytes, SenderReportOf;
      for k := 0 to |order|
        invariant Valid()
        invariant sentRtcp == old(sentRtcp) + SenderReports(states, order[..k], now)
      {
        var report := MakeSenderReport(order[k], now);
        if report.Some? {
          sentRtcp := sentRtcp + [report.value];
        }
        assert order[..k + 1][..k] == order[..k];
      }
      assert order[..|order|] == order;
    }
  }
}
