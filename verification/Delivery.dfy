/** The sender end to end: what a receiver can make of the packets and the resends that a stream
    sends for frames and feedback in any order. */
module Delivery {
  import opened Bytes
  import opened AnnexB
  import opened RtpPacketizer
  import opened Depacketizer
  import opened RtcpFraming
  import opened StreamTrack
  import opened TrackRuns
  import opened MediaStream
  import opened StreamRuns
  import Rtcp
  import RtxPacket

  // ----- what the receiver gets -----

  /** How packet j reaches the receiver: as first sent, or as resend number `entry`. */
  datatype Copy = Direct | Resent(entry: nat)

  /** A copy of packet j: resent on a request for its number that came within its lifetime. */
  ghost predicate CopyOf(w: World, j: nat, copy: Copy)
    requires j < |w.sent|
  {
    copy.Resent? ==>
      && copy.entry < |w.log|
      && var e := w.log[copy.entry];
         e.resend.requested == w.sent[j].sequenceNumber && j < e.sentBefore <= j + Lifetime(e.resend.requested)
  }

  /** The bytes the receiver goes on with: a resend is taken out of the retransmission format. */
  function Restored(p: RtpParams, data: seq<Byte>): seq<Byte> {
    if p.isRtxEnabled && |data| >= RTP_HEADER_FIXED_SIZE + RtxPacket.RTX_EXTRA_SIZE then
      RtxPacket.UndoRtx(data, RTP_HEADER_FIXED_SIZE, p.ssrc, p.payloadType % 0x80)
    else data
  }

  function Obtained(p: RtpParams, w: World, j: nat, copy: Copy): seq<Byte>
    requires j < |w.sent| && (copy.Resent? ==> copy.entry < |w.log|)
  {
    if copy.Direct? then w.sent[j].data else Restored(p, w.log[copy.entry].resend.data)
  }

  /** The receiver of section 5 of RFC 6184 on bytes. */
  function ReceiveDatas(r: Receiver, datas: seq<seq<Byte>>): Receiver {
    if datas == [] then r
    else
      var last := |datas| - 1;
      Receive(ReceiveDatas(r, datas[..last]), datas[last])
  }

  lemma {:induction false} SameReceiver(r: Receiver, packets: seq<RtpPacket>, datas: seq<seq<Byte>>)
    requires |datas| == |packets| && forall k :: 0 <= k < |datas| ==> datas[k] == packets[k].data
    ensures ReceiveDatas(r, datas) == ReceiveAll(r, packets)
    decreases |datas|
  {
    if datas != [] {
      var last := |datas| - 1;
      SameReceiver(r, packets[..last], datas[..last]);
    }
  }

  /** A copy restores the packet first sent. */
  lemma CopyRestores(p: RtpParams, steps: seq<Step>, first: UInt16, j: nat, copy: Copy)
    requires p.isNackEnabled && GoodSteps(p, steps) && Consecutive(Run(p, steps).sent, first)
    requires j < |Run(p, steps).sent| && CopyOf(Run(p, steps), j, copy)
    requires Run(p, steps).sent[j].headerOffset == RTP_HEADER_FIXED_SIZE
    ensures Obtained(p, Run(p, steps), j, copy) == Run(p, steps).sent[j].data
  {
    hide Run, Sound, LogOk, RtxPacket.UndoRtx;
    if copy.Resent? {
      var w := Run(p, steps);
      RunIsSound(p, steps);
      EntryWithinHistory(p, w, copy.entry);
      ResendIsRight(p, steps, copy.entry, first, j);
    }
  }

  lemma EntryWithinHistory(p: RtpParams, w: World, i: nat)
    requires Sound(p, w) && i < |w.log|
    ensures w.log[i].sentBefore <= |w.sent|
  {
    assert EntryOk(p, w.sent, w.log[i], i);
  }

  /** One copy of each packet, in order. */
  ghost predicate Complete(w: World, copies: seq<Copy>) {
    |copies| == |w.sent| && forall j :: 0 <= j < |copies| ==> CopyOf(w, j, copies[j])
  }

  function AllObtained(p: RtpParams, w: World, copies: seq<Copy>): (r: seq<seq<Byte>>)
    requires |copies| == |w.sent| && forall j :: 0 <= j < |copies| && copies[j].Resent? ==> copies[j].entry < |w.log|
    ensures |r| == |copies| && forall j :: 0 <= j < |r| ==> r[j] == Obtained(p, w, j, copies[j])
  {
    seq(|copies|, j requires 0 <= j < |copies| => Obtained(p, w, j, copies[j]))
  }

  /** The bytes of a copy as they travel. */
  function OnTheWay(w: World, j: nat, copy: Copy): seq<Byte>
    requires j < |w.sent| && (copy.Resent? ==> copy.entry < |w.log|)
  {
    if copy.Direct? then w.sent[j].data else w.log[copy.entry].resend.data
  }

  /** A copy is something the stream handed to its observer. */
  lemma CopyWasSent(tracks: map<UInt32, Track>, p: RtpParams, events: seq<Event>, j: nat, copy: Copy)
    requires Start(tracks, p, events)
    requires j < |RunOf(p, tracks.Keys, events).sent| && CopyOf(RunOf(p, tracks.Keys, events), j, copy)
    ensures OnTheWay(RunOf(p, tracks.Keys, events), j, copy) in SentDuring(tracks, p, events)
  {
    hide RunOf, SentDuring;
    HistoryWasSent(tracks, p, events, OnTheWay(RunOf(p, tracks.Keys, events), j, copy));
  }

  /** Losses are made good. Take a stream whose video track is fresh and has NACK enabled, any
      frames in Annex B format and any feedback the stream handles, in any order. A receiver that
      gets every packet either as first sent or as a resend asked for within the packet's lifetime
      ends up with exactly the NALUs of every frame, in order, byte for byte; and all these copies
      are among what the stream hands to its observer. */
  lemma LossesAreMadeGood(tracks: map<UInt32, Track>, p: RtpParams, events: seq<Event>,
                          lists: seq<seq<Unit>>, copies: seq<Copy>)
    requires Start(tracks, p, events) && p.isNackEnabled && AllEncode(FramesOf(events), lists)
    requires Complete(RunOf(p, tracks.Keys, events), copies)
    ensures var w := RunOf(p, tracks.Keys, events);
            && ReceiveDatas(EMPTY, AllObtained(p, w, copies)) == Receiver(NalusOfAll(lists), [], None)
            && forall j :: 0 <= j < |copies| ==> OnTheWay(w, j, copies[j]) in SentDuring(tracks, p, events)
  {
    hide StepsOf, FramesOf, RunPackets, Run, Obtained, SentDuring, FreshTrack, Handled;
    var w := RunOf(p, tracks.Keys, events);
    EventsMakeRun(p, tracks.Keys, events);
    RunIsNumbered(ConfigOf(p), FramesOf(events), 0);
    forall j | 0 <= j < |copies|
      ensures AllObtained(p, w, copies)[j] == w.sent[j].data
      ensures OnTheWay(w, j, copies[j]) in SentDuring(tracks, p, events)
    {
      assert Carries(w.sent[j], ConfigOf(p), Next(0, j));
      CopyRestores(p, StepsOf(p, events), 0, j, copies[j]);
      CopyWasSent(tracks, p, events, j, copies[j]);
    }
    SameReceiver(EMPTY, w.sent, AllObtained(p, w, copies));
    ReceiveStreams(ConfigOf(p), FramesOf(events), lists, 0);
  }

  // ----- asking is enough -----

  lemma {:induction false} FirstRequested(items: seq<Item>)
    requires items != []
    ensures Requested(items) != [] && Requested(items)[0] == items[0].pid
    decreases |items|
  {
    if |items| > 1 {
      FirstRequested(items[..|items| - 1]);
    }
  }

  /** The feedback of one NACK. */
  ghost function Asking(wire: Wire, clock: Clock): Event
    requires Fits(wire)
  {
    Feedback(EncodeAll([wire]), clock)
  }

  /** What a NACK for the track, as bytes, makes it do. */
  lemma AskingMeans(p: RtpParams, wire: Wire, clock: Clock, n: UInt16)
    requires p.isNackEnabled && Fits(wire) && wire.WireNack? && wire.mediaSsrc == p.ssrc
    ensures var lost := Requested(wire.items);
            && Handled({p.ssrc}, Asking(wire, clock))
            && EventSteps(p, n, Asking(wire, clock)) == AskSteps(lost, Times(clock, 0, |lost|))
  {
    hide Encode, EncodeAll, Rtcp.ParseAll, Requested;
    var ws := [wire];
    CompoundRoundTrip(ws);
    assert Meanings(ws[1..]) == [];
    var packets := Meanings(ws);
    assert packets == [Meaning(wire)];
    assert packets[..0] == [];
    var steps := PacketSteps(p, packets[0], clock, 0);
    assert FeedbackSteps(p, packets, clock) == [] + steps == steps;
  }

  lemma OneMoreEvent(p: RtpParams, events: seq<Event>, event: Event)
    requires event.Feedback?
    ensures StepsOf(p, events + [event]) == StepsOf(p, events) + EventSteps(p, NumberAfter(p, events), event)
    ensures PacketsOf(p, events + [event]) == PacketsOf(p, events)
  {
    hide EventSteps;
    assert (events + [event])[..|events|] == events;
    assert FramesOf(events + [event]) == FramesOf(events);
  }

  /** The first request of a list comes before the others, and its entry stays. */
  lemma FirstAskFirst(p: RtpParams, steps: seq<Step>, lost: seq<UInt16>, nows: seq<UInt64>)
    requires GoodSteps(p, steps) && |nows| == |lost| > 0
    ensures var w, w' := Run(p, steps), Run(p, steps + AskSteps(lost, nows));
            Serves(p, w.track, lost[0], nows[0]) ==>
              |w.log| < |w'.log| && w'.log[|w.log|] == NewEntry(p, w, lost[0], nows[0])
  {
    hide NewEntry, Serves;
    var first := [Ask(lost[0], nows[0])];
    var front := steps + first;
    assert front[..|steps|] == steps;
    assert steps + AskSteps(lost, nows) == front + AskSteps(lost[1..], nows[1..]);
    var w, w1 := Run(p, steps), Run(p, front);
    var w' := Run(p, front + AskSteps(lost[1..], nows[1..]));
    AsksLog(p, front, lost[1..], nows[1..], 0, TWO_TO_64);
    if Serves(p, w.track, lost[0], nows[0]) {
      assert w1.log == w.log + [NewEntry(p, w, lost[0], nows[0])];
      assert w'.log[..|w1.log|][|w.log|] == w1.log[|w.log|];
    }
  }

  /** Asking is enough. After any events, a NACK of the peer that lists packet j first, within the
      packet's lifetime and when it is due (not too old, not resent just before), makes the stream
      resend it: what it resends next is a copy of packet j. */
  lemma AskingIsEnough(p: RtpParams, ssrcs: set<UInt32>, events: seq<Event>, wire: Wire, clock: Clock, j: nat)
    requires p.isNackEnabled && Scenario(p, ssrcs, events) && Clocked(StepsOf(p, events))
    requires var w := RunOf(p, ssrcs, events); j < |w.sent| <= j + Lifetime(w.sent[j].sequenceNumber)
    requires Fits(wire) && wire.WireNack? && wire.mediaSsrc == p.ssrc && wire.items != []
    requires wire.items[0].pid == RunOf(p, ssrcs, events).sent[j].sequenceNumber
    requires forall i :: 0 <= i < |StepsOf(p, events)| ==> StepsOf(p, events)[i].now <= clock(0, 0)
    requires Due(p, RunOf(p, ssrcs, events), j, clock(0, 0))
    ensures Scenario(p, ssrcs, events + [Asking(wire, clock)])
    ensures var w, w' := RunOf(p, ssrcs, events), RunOf(p, ssrcs, events + [Asking(wire, clock)]);
            && w'.sent == w.sent && |w.log| < |w'.log| && CopyOf(w', j, Resent(|w.log|))
  {
    hide StepsOf, EventSteps, Requested, Run, Due, Serves, Asking, FramesOf, RunPackets;
    var steps, w := StepsOf(p, events), RunOf(p, ssrcs, events);
    var lost := Requested(wire.items);
    var nows := Times(clock, 0, |lost|);
    FirstRequested(wire.items);
    AskingMeans(p, wire, clock, NumberAfter(p, events));
    HandledMore(p, ssrcs, events, Asking(wire, clock));
    AskingIsFeedback(wire, clock);
    OneMoreEvent(p, events, Asking(wire, clock));
    EventsMakeRun(p, ssrcs, events);
    EventsMakeRun(p, ssrcs, events + [Asking(wire, clock)]);
    SomeStep(p, steps);
    AskIsServed(p, steps, 0, j, clock(0, 0));
    FirstAskFirst(p, steps, lost, nows);
    EntryOfRequest(p, w, lost[0], nows[0]);
  }

  lemma AskingIsFeedback(wire: Wire, clock: Clock)
    requires Fits(wire)
    ensures Asking(wire, clock).Feedback?
  {
  }

  lemma HandledMore(p: RtpParams, ssrcs: set<UInt32>, events: seq<Event>, event: Event)
    requires Scenario(p, ssrcs, events) && Handled({p.ssrc}, event)
    ensures Scenario(p, ssrcs, events + [event])
  {
    hide Rtcp.ParseAll;
  }

  lemma SomeStep(p: RtpParams, steps: seq<Step>)
    requires GoodSteps(p, steps) && Run(p, steps).sent != []
    ensures steps != []
  {
  }

  lemma EntryOfRequest(p: RtpParams, w: World, seqnum: UInt16, now: UInt64)
    requires w.track.Ok() && Serves(p, w.track, seqnum, now)
    ensures NewEntry(p, w, seqnum, now).resend.requested == seqnum
    ensures NewEntry(p, w, seqnum, now).sentBefore == |w.sent|
  {
  }

  // ----- an example -----

  /** A slice of one byte, in Annex B format. */
  const SLICE: Unit := Unit(false, [0x65])

  function SliceFrame(): Frame {
    Frame(Stream([SLICE]), 0)
  }

  function SlicePacket(p: RtpParams): RtpPacket {
    Packet(ConfigOf(p), 1, 0, 0, [0x65])
  }

  /** A NACK from a peer for packet 0 of the track. */
  function NackForZero(p: RtpParams): Wire {
    WireNack(4, 9, p.ssrc, [Item(0, 0)])
  }

  /** The frame is sent, the packet is lost, the peer asks for it. */
  ghost function LossEvents(p: RtpParams): seq<Event> {
    [Encoded(SliceFrame(), j => 1), Feedback(EncodeAll([NackForZero(p)]), (i, j) => 1)]
  }

  lemma SliceEncodes()
    ensures Encodes(SliceFrame(), [SLICE]) && ParsedUnits(SliceFrame().data) == [SLICE]
    ensures FramePayloads([SLICE]) == [[0x65]]
  {
    ParseOfEncoded(SliceFrame(), [SLICE]);
    assert [SLICE][..0] == [];
  }

  lemma SliceFrames(p: RtpParams)
    ensures var events := LossEvents(p);
            && events[..1][..0] == [] && FramesOf(events[..1]) == [SliceFrame()] && FramesOf(events) == [SliceFrame()]
  {
    var events := LossEvents(p);
    assert events[..1][..0] == [];
    assert FramesOf(events[..1]) == [SliceFrame()];
    assert events[..|events| - 1] == events[..1];
  }

  lemma SlicePackets(p: RtpParams, n: UInt16)
    requires n == 0
    ensures FramePackets(ConfigOf(p), SliceFrame().data, n, 0) == [SlicePacket(p)]
  {
    hide Packet;
    SliceEncodes();
    var packets := Numbered(ConfigOf(p), [[0x65]], 0, 0, 1);
    assert packets == [packets[0]];
  }

  lemma NackMeans(p: RtpParams)
    requires p.isNackEnabled
    ensures Rtcp.ParseAll(EncodeAll([NackForZero(p)]), 0).Some?
    ensures var packets := Rtcp.ParseAll(EncodeAll([NackForZero(p)]), 0).value;
            NacksKnown({p.ssrc}, packets) && FeedbackSteps(p, packets, (i, j) => 1) == [Ask(0, 1)]
  {
    hide Encode, EncodeAll, Rtcp.ParseAll;
    var ws := [NackForZero(p)];
    CompoundRoundTrip(ws);
    assert Meanings(ws[1..]) == [];
    var packets := Meanings(ws);
    assert packets == [Meaning(ws[0])];
    OneItem();
    assert packets[0].lost == [0];
    assert packets[..0] == [];
  }

  lemma OneItem()
    ensures Requested([Item(0, 0)]) == [0]
  {
    assert [Item(0, 0)][..0] == [];
    assert Rtcp.ItemNumbers(0, 0) == [0];
  }

  lemma LossSteps(p: RtpParams)
    requires p.isNackEnabled
    ensures StepsOf(p, LossEvents(p)) == [Send(SlicePacket(p), 1), Ask(0, 1)]
  {
    hide FramePackets, FeedbackSteps, RunPackets, Packet, EncodeAll, Rtcp.ParseAll;
    var events := LossEvents(p);
    SliceFrames(p);
    NackMeans(p);
    NoPackets(p);
    SlicePackets(p, 0);
    assert StepsOf(p, events[..1]) == [Send(SlicePacket(p), 1)];
    assert events[..|events| - 1] == events[..1];
  }

  lemma NoPackets(p: RtpParams)
    ensures PacketsOf(p, []) == []
  {
  }

  /** The hypotheses of the theorem are met where they matter: a run in which the only packet is
      lost, asked for and resent, and the receiver has nothing but the resend. */
  lemma LossHappens(p: RtpParams)
    requires p.isNackEnabled
    ensures var tracks := map[p.ssrc := Track(p, FreshTrack())];
            && Start(tracks, p, LossEvents(p)) && AllEncode(FramesOf(LossEvents(p)), [[SLICE]])
            && Complete(RunOf(p, tracks.Keys, LossEvents(p)), [Resent(0)])
  {
    hide StepsOf, FeedbackSteps, EncodeAll, Rtcp.ParseAll, FramesOf, Stream;
    var tracks := map[p.ssrc := Track(p, FreshTrack())];
    var events := LossEvents(p);
    SliceFrames(p);
    SliceEncodes();
    NackMeans(p);
    assert tracks.Keys == {p.ssrc};
    LossSteps(p);
    EventsMakeRun(p, tracks.Keys, events);
    RunOfLoss(p);
  }

  lemma RunOfLoss(p: RtpParams)
    requires p.isNackEnabled
    ensures var steps := [Send(SlicePacket(p), 1), Ask(0, 1)];
            && GoodSteps(p, steps) && |Run(p, steps).sent| == 1 && Complete(Run(p, steps), [Resent(0)])
  {
    hide Advance, Untouched, Sound, Own;
    var pkt, steps := SlicePacket(p), [Send(SlicePacket(p), 1), Ask(0, 1)];
    PacketIsOwn(p, 1, 0, 0, [0x65]);
    assert steps[..1][..0] == [] && steps[..|steps| - 1] == steps[..1];
    FreshIsUntouched();
    EmptySendUntouched(p, World(FreshTrack(), [], []), pkt);
    assert GoodStep(p, steps[0]) && Run(p, []) == World(FreshTrack(), [], []);
    var w := Run(p, steps[..1]);
    assert w == Advance(p, Run(p, []), Send(pkt, 1));
    assert w.sent == [pkt] && LastInSlot([pkt], 0) == Some(0);
    RunIsSound(p, steps[..1]);
    AskAnswered(p, w, 0, 0);
    RunIsSound(p, steps);
    EntryOfOne(p, Run(p, steps));
  }

  lemma FreshIsUntouched()
    ensures Untouched(World(FreshTrack(), [], []))
  {
  }

  lemma EntryOfOne(p: RtpParams, w: World)
    requires Sound(p, w) && |w.sent| == |w.log| == 1
    ensures w.log[0].sentBefore == 1
  {
    assert EntryOk(p, w.sent, w.log[0], 0);
  }
}
