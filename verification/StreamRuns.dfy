/** Runs of a whole stream: frames from the encoder and RTCP feedback in any order, the run they
    make of the video track, and what the observer is handed meanwhile. */
module StreamRuns {
  import opened Bytes
  import opened RtpPacketizer
  import opened Depacketizer
  import opened StreamTrack
  import opened TrackRuns
  import opened MediaStream
  import Rtcp

  /** What happens to a stream: a frame is encoded, or RTCP arrives. */
  datatype Event =
    | Encoded(frame: Frame, nows: nat -> UInt64)
    | Feedback(data: seq<Byte>, clock: Clock)

  /** Feedback that the stream with these tracks handles: every NACK names one of them. On any
      other the source calls a method through a null pointer. */
  ghost predicate Handled(ssrcs: set<UInt32>, event: Event) {
    event.Feedback? && Rtcp.ParseAll(event.data, 0).Some? ==> NacksKnown(ssrcs, Rtcp.ParseAll(event.data, 0).value)
  }

  ghost predicate AllHandled(ssrcs: set<UInt32>, events: seq<Event>) {
    forall k :: 0 <= k < |events| ==> Handled(ssrcs, events[k])
  }

  /** A video track of a stream with these tracks, and events the stream handles. */
  ghost predicate Scenario(p: RtpParams, ssrcs: set<UInt32>, events: seq<Event>) {
    p.ssrc in ssrcs && AllHandled(ssrcs, events)
  }

  function ConfigOf(p: RtpParams): Config {
    Config(p.ssrc, p.payloadType)
  }

  ghost function FramesOf(events: seq<Event>): seq<Frame> {
    if events == [] then []
    else
      var last := |events| - 1;
      FramesOf(events[..last]) + if events[last].Encoded? then [events[last].frame] else []
  }

  /** Everything the packetizer of track p generates. */
  ghost function PacketsOf(p: RtpParams, events: seq<Event>): seq<RtpPacket> {
    RunPackets(ConfigOf(p), FramesOf(events), 0)
  }

  /** What an event means for track p when the packetizer stands at number n. */
  ghost function EventSteps(p: RtpParams, n: UInt16, event: Event): seq<Step> {
    match event
    case Encoded(frame, nows) => SendSteps(FramePackets(ConfigOf(p), frame.data, n, frame.timestamp), nows)
    case Feedback(data, clock) =>
      if Rtcp.ParseAll(data, 0).Some? then FeedbackSteps(p, Rtcp.ParseAll(data, 0).value, clock) else []
  }

  /** The steps of track p, the video track of a stream. */
  ghost function StepsOf(p: RtpParams, events: seq<Event>): seq<Step> {
    if events == [] then []
    else
      var last := |events| - 1;
      var before := events[..last];
      StepsOf(p, before) + EventSteps(p, Next(0, |PacketsOf(p, before)|), events[last])
  }

  // ----- the packets of the steps -----

  function Sends(steps: seq<Step>): seq<RtpPacket> {
    if steps == [] then []
    else
      var last := |steps| - 1;
      Sends(steps[..last]) + if steps[last].Send? then [steps[last].pkt] else []
  }

  lemma {:induction false} SendsInParts(a: seq<Step>, b: seq<Step>)
    ensures Sends(a + b) == Sends(a) + Sends(b)
    decreases |b|
  {
    if b == [] {
      assert a + b == a;
    } else {
      var last := |b| - 1;
      assert (a + b)[..|a + b| - 1] == a + b[..last];
      SendsInParts(a, b[..last]);
    }
  }

  lemma {:induction false} SendsOfSends(packets: seq<RtpPacket>, nows: nat -> UInt64)
    ensures Sends(SendSteps(packets, nows)) == packets
    decreases |packets|
  {
    if packets != [] {
      var last := |packets| - 1;
      SendsOfSends(packets[..last], nows);
      assert SendSteps(packets, nows)[..last] == SendSteps(packets[..last], nows);
      assert packets == packets[..last] + [packets[last]];
    }
  }

  ghost predicate NoSends(steps: seq<Step>) {
    forall i :: 0 <= i < |steps| ==> !steps[i].Send?
  }

  lemma {:induction false} SendsOfNone(steps: seq<Step>)
    requires NoSends(steps)
    ensures Sends(steps) == []
    decreases |steps|
  {
    if steps != [] {
      SendsOfNone(steps[..|steps| - 1]);
    }
  }

  lemma {:induction false} ReportsSendNothing(p: RtpParams, blocks: seq<Rtcp.ReportBlock>, clock: Clock, i: nat)
    ensures NoSends(ReportSteps(p, blocks, clock, i))
    decreases |blocks|
  {
    if blocks != [] {
      ReportsSendNothing(p, blocks[..|blocks| - 1], clock, i);
    }
  }

  lemma {:induction false} FeedbackSendsNothing(p: RtpParams, packets: seq<Rtcp.RtcpPacket>, clock: Clock)
    ensures NoSends(FeedbackSteps(p, packets, clock))
    decreases |packets|
  {
    if packets != [] {
      var last := |packets| - 1;
      FeedbackSendsNothing(p, packets[..last], clock);
      if packets[last].ReceiverReport? {
        ReportsSendNothing(p, packets[last].blocks, clock, last);
      }
    }
  }

  lemma EventSends(p: RtpParams, n: UInt16, event: Event)
    ensures Sends(EventSteps(p, n, event)) ==
            if event.Encoded? then FramePackets(ConfigOf(p), event.frame.data, n, event.frame.timestamp) else []
  {
    match event
    case Encoded(frame, nows) =>
      SendsOfSends(FramePackets(ConfigOf(p), frame.data, n, frame.timestamp), nows);
    case Feedback(data, clock) =>
      if Rtcp.ParseAll(data, 0).Some? {
        FeedbackSendsNothing(p, Rtcp.ParseAll(data, 0).value, clock);
        SendsOfNone(FeedbackSteps(p, Rtcp.ParseAll(data, 0).value, clock));
      }
  }

  /** Feedback interleaves with the packets but changes none of them. */
  lemma {:induction false} StepsSend(p: RtpParams, events: seq<Event>)
    ensures Sends(StepsOf(p, events)) == PacketsOf(p, events)
    decreases |events|
  {
    hide EventSteps, FramePackets;
    if events != [] {
      var last := |events| - 1;
      var before := events[..last];
      var n := Next(0, |PacketsOf(p, before)|);
      StepsSend(p, before);
      EventSends(p, n, events[last]);
      SendsInParts(StepsOf(p, before), EventSteps(p, n, events[last]));
      if events[last].Encoded? {
        assert FramesOf(events)[..|FramesOf(events)| - 1] == FramesOf(before);
      } else {
        assert FramesOf(events) == FramesOf(before);
      }
    }
  }

  lemma {:induction false} RunSends(p: RtpParams, steps: seq<Step>)
    requires GoodSteps(p, steps)
    ensures Run(p, steps).sent == Sends(steps)
    decreases |steps|
  {
    if steps != [] {
      RunSends(p, steps[..|steps| - 1]);
    }
  }

  lemma CarriesIsOwn(p: RtpParams, pkt: RtpPacket, seqnum: UInt16)
    requires Carries(pkt, ConfigOf(p), seqnum)
    ensures Own(p, pkt)
  {
  }

  lemma {:induction false} AreGood(p: RtpParams, steps: seq<Step>)
    requires forall k :: 0 <= k < |Sends(steps)| ==> Own(p, Sends(steps)[k])
    ensures GoodSteps(p, steps)
    decreases |steps|
  {
    hide Own;
    if steps != [] {
      var last := |steps| - 1;
      forall k | 0 <= k < |Sends(steps[..last])|
        ensures Own(p, Sends(steps[..last])[k])
      {
        assert Sends(steps)[k] == Sends(steps[..last])[k];
      }
      AreGood(p, steps[..last]);
      if steps[last].Send? {
        assert Sends(steps)[|Sends(steps)| - 1] == steps[last].pkt;
      }
      forall i | 0 <= i < |steps|
        ensures GoodStep(p, steps[i])
      {
        assert i < last ==> steps[..last][i] == steps[i];
      }
    }
  }

  /** The steps of any events are those of a run, of the packetizer's packets. */
  lemma StepsAreRun(p: RtpParams, events: seq<Event>)
    ensures var steps := StepsOf(p, events);
            GoodSteps(p, steps) && Run(p, steps).sent == PacketsOf(p, events) && Consecutive(Run(p, steps).sent, 0)
  {
    hide StepsOf, Sends, FramesOf, RunPackets;
    var steps, packets := StepsOf(p, events), PacketsOf(p, events);
    StepsSend(p, events);
    RunIsNumbered(ConfigOf(p), FramesOf(events), 0);
    forall k | 0 <= k < |packets|
      ensures Own(p, packets[k])
    {
      CarriesIsOwn(p, packets[k], Next(0, k));
    }
    AreGood(p, steps);
    RunSends(p, steps);
  }

  /** The run of track p under events the stream handles, with its history. */
  ghost function RunOf(p: RtpParams, ssrcs: set<UInt32>, events: seq<Event>): World
    requires Scenario(p, ssrcs, events)
  {
    StepsAreRun(p, events);
    Run(p, StepsOf(p, events))
  }

  /** Whatever frames and handled feedback arrive, in whatever order: what they make of the track
      is a run, its packets are the packetizer's, and these are consecutively numbered from 0. */
  lemma EventsMakeRun(p: RtpParams, ssrcs: set<UInt32>, events: seq<Event>)
    requires Scenario(p, ssrcs, events)
    ensures var steps, w := StepsOf(p, events), RunOf(p, ssrcs, events);
            && GoodSteps(p, steps) && w == Run(p, steps)
            && w.sent == PacketsOf(p, events) && Consecutive(w.sent, 0)
  {
    StepsAreRun(p, events);
  }

  // ----- the stream behind the run -----

  /** What MediaStream's methods leave of the tracks after an event, the packetizer at number n. */
  ghost function AfterEvent(tracks: map<UInt32, Track>, p: RtpParams, n: UInt16, event: Event): (r: map<UInt32, Track>)
    requires AllOk(tracks) && p.ssrc in tracks && Handled(tracks.Keys, event)
    ensures AllOk(r) && r.Keys == tracks.Keys
  {
    match event
    case Encoded(frame, nows) =>
      FrameIsSendable(ConfigOf(p), frame.data, n, frame.timestamp);
      Fed(tracks, p.ssrc, FramePackets(ConfigOf(p), frame.data, n, frame.timestamp), nows)
    case Feedback(data, clock) =>
      if Rtcp.ParseAll(data, 0).Some? then AfterFeedback(tracks, Rtcp.ParseAll(data, 0).value, clock) else tracks
  }

  /** What MediaStream's methods hand to the observer during an event. */
  ghost function SentAt(tracks: map<UInt32, Track>, p: RtpParams, n: UInt16, event: Event): seq<seq<Byte>>
    requires AllOk(tracks) && Handled(tracks.Keys, event)
  {
    match event
    case Encoded(frame, nows) => PacketDatas(FramePackets(ConfigOf(p), frame.data, n, frame.timestamp))
    case Feedback(data, clock) =>
      if Rtcp.ParseAll(data, 0).Some? then ResentForFeedback(tracks, Rtcp.ParseAll(data, 0).value, clock) else []
  }

  /** The same with the tracks the bytes belong to. */
  ghost function HandedAt(tracks: map<UInt32, Track>, p: RtpParams, n: UInt16, event: Event): seq<Handed>
    requires AllOk(tracks) && Handled(tracks.Keys, event)
  {
    match event
    case Encoded(frame, nows) =>
      Tagged(p.ssrc, PacketDatas(FramePackets(ConfigOf(p), frame.data, n, frame.timestamp)))
    case Feedback(data, clock) =>
      if Rtcp.ParseAll(data, 0).Some? then HandedForFeedback(tracks, Rtcp.ParseAll(data, 0).value, clock) else []
  }

  /** The number the packetizer stands at after the events. */
  ghost function NumberAfter(p: RtpParams, events: seq<Event>): UInt16 {
    Next(0, |PacketsOf(p, events)|)
  }

  /** A stream whose video track p is fresh, and events that it handles. */
  ghost predicate Start(tracks: map<UInt32, Track>, p: RtpParams, events: seq<Event>) {
    && AllOk(tracks) && p.ssrc in tracks && tracks[p.ssrc] == Track(p, FreshTrack())
    && AllHandled(tracks.Keys, events)
  }

  ghost function AfterEvents(tracks: map<UInt32, Track>, p: RtpParams, events: seq<Event>): (r: map<UInt32, Track>)
    requires Start(tracks, p, events)
    ensures AllOk(r) && r.Keys == tracks.Keys
  {
    if events == [] then tracks
    else
      var last := |events| - 1;
      var before := events[..last];
      AfterEvent(AfterEvents(tracks, p, before), p, NumberAfter(p, before), events[last])
  }

  ghost function SentDuring(tracks: map<UInt32, Track>, p: RtpParams, events: seq<Event>): seq<seq<Byte>>
    requires Start(tracks, p, events)
  {
    if events == [] then []
    else
      var last := |events| - 1;
      var before := events[..last];
      SentDuring(tracks, p, before)
      + SentAt(AfterEvents(tracks, p, before), p, NumberAfter(p, before), events[last])
  }

  ghost function HandedDuring(tracks: map<UInt32, Track>, p: RtpParams, events: seq<Event>): seq<Handed>
    requires Start(tracks, p, events)
  {
    if events == [] then []
    else
      var last := |events| - 1;
      var before := events[..last];
      HandedDuring(tracks, p, before)
      + HandedAt(AfterEvents(tracks, p, before), p, NumberAfter(p, before), events[last])
  }

  // ----- what the steps of a track send -----

  function StepDatas(p: RtpParams, s: TrackState, step: Step): seq<seq<Byte>>
    requires s.Ok()
  {
    if step.Send? then [step.pkt.data] else Datas(ResentAt(p, s, step))
  }

  /** First transmissions and resends of a track, in the order of its steps. */
  function StepsDatas(p: RtpParams, s: TrackState, steps: seq<Step>): seq<seq<Byte>>
    requires s.Ok() && AllSane(steps)
  {
    if steps == [] then []
    else
      var last := |steps| - 1;
      StepsDatas(p, s, steps[..last]) + StepDatas(p, AfterAll(p, s, steps[..last]), steps[last])
  }

  lemma {:induction false} StepsDatasInParts(p: RtpParams, s: TrackState, a: seq<Step>, b: seq<Step>)
    requires s.Ok() && AllSane(a) && AllSane(b)
    ensures AllSane(a + b)
    ensures StepsDatas(p, s, a + b) == StepsDatas(p, s, a) + StepsDatas(p, AfterAll(p, s, a), b)
    decreases |b|
  {
    hide StepDatas, ResentDuring, Sane, TrackState.Ok, FreshTrack;
    if b == [] {
      assert a + b == a;
    } else {
      var last := |b| - 1;
      assert (a + b)[..|a + b| - 1] == a + b[..last];
      StepsDatasInParts(p, s, a, b[..last]);
      InParts(p, s, a, b[..last]);
    }
  }

  lemma {:induction false} DatasOfSends(p: RtpParams, s: TrackState, packets: seq<RtpPacket>, nows: nat -> UInt64)
    requires s.Ok() && AllSane(SendSteps(packets, nows))
    ensures StepsDatas(p, s, SendSteps(packets, nows)) == PacketDatas(packets)
    decreases |packets|
  {
    hide AfterAll, Sane;
    if packets != [] {
      var last := |packets| - 1;
      var steps := SendSteps(packets, nows);
      assert steps[..last] == SendSteps(packets[..last], nows);
      DatasOfSends(p, s, packets[..last], nows);
    }
  }

  lemma {:induction false} DatasOfOthers(p: RtpParams, s: TrackState, steps: seq<Step>)
    requires s.Ok() && AllSane(steps) && NoSends(steps)
    ensures StepsDatas(p, s, steps) == Datas(ResentDuring(p, s, steps))
    decreases |steps|
  {
    hide AfterAll, ResentAt;
    if steps != [] {
      var last := |steps| - 1;
      DatasOfOthers(p, s, steps[..last]);
      DatasInParts(ResentDuring(p, s, steps[..last]), ResentAt(p, AfterAll(p, s, steps[..last]), steps[last]));
    }
  }

  // ----- the stream follows the run -----

  lemma EventIsSane(p: RtpParams, n: UInt16, event: Event)
    ensures AllSane(EventSteps(p, n, event))
  {
    if event.Encoded? {
      FrameIsSendable(ConfigOf(p), event.frame.data, n, event.frame.timestamp);
    }
  }

  /** One event, on any tracks: the video track takes the event's steps, and of what the observer
      is handed, the video track's part is what these steps send. */
  lemma EventFollows(tracks: map<UInt32, Track>, p: RtpParams, n: UInt16, event: Event)
    requires AllOk(tracks) && p.ssrc in tracks && tracks[p.ssrc].params == p && Handled(tracks.Keys, event)
    ensures AllSane(EventSteps(p, n, event))
    ensures AfterEvent(tracks, p, n, event)[p.ssrc] == Moved(tracks[p.ssrc], EventSteps(p, n, event))
    ensures Untagged(HandedAt(tracks, p, n, event)) == SentAt(tracks, p, n, event)
    ensures DataFor(HandedAt(tracks, p, n, event), p.ssrc)
            == StepsDatas(p, tracks[p.ssrc].state, EventSteps(p, n, event))
  {
    hide FramePackets, FeedbackSteps, AfterFeedback, HandedForFeedback, ResentForFeedback, StepsDatas, PacketDatas;
    EventIsSane(p, n, event);
    match event
    case Encoded(frame, nows) =>
      var packets := FramePackets(ConfigOf(p), frame.data, n, frame.timestamp);
      FrameIsSendable(ConfigOf(p), frame.data, n, frame.timestamp);
      DatasOfSends(p, tracks[p.ssrc].state, packets, nows);
      DataForTagged(p.ssrc, PacketDatas(packets), p.ssrc);
    case Feedback(data, clock) =>
      if Rtcp.ParseAll(data, 0).Some? {
        var packets := Rtcp.ParseAll(data, 0).value;
        FeedbackTrackByTrack(tracks, packets, clock, p.ssrc);
        FeedbackResends(tracks, packets, clock, p.ssrc);
        FeedbackSendsNothing(p, packets, clock);
        DatasOfOthers(p, tracks[p.ssrc].state, FeedbackSteps(p, packets, clock));
      } else {
        NothingToSend(p, tracks[p.ssrc].state);
      }
  }

  lemma NothingToSend(p: RtpParams, s: TrackState)
    requires s.Ok()
    ensures StepsDatas(p, s, []) == []
  {
  }

  lemma RunOfMore(p: RtpParams, ssrcs: set<UInt32>, events: seq<Event>)
    requires Scenario(p, ssrcs, events) && events != []
    ensures var last := |events| - 1;
            var more := EventSteps(p, NumberAfter(p, events[..last]), events[last]);
            && Scenario(p, ssrcs, events[..last]) && AllSane(StepsOf(p, events[..last])) && AllSane(more)
            && StepsOf(p, events) == StepsOf(p, events[..last]) + more
            && RunOf(p, ssrcs, events[..last]).track == AfterAll(p, FreshTrack(), StepsOf(p, events[..last]))
            && RunOf(p, ssrcs, events).track == AfterAll(p, RunOf(p, ssrcs, events[..last]).track, more)
  {
    hide EventSteps, PacketsOf, Run, Handled;
    var last := |events| - 1;
    var before, steps := events[..last], StepsOf(p, events[..last]);
    var more := EventSteps(p, NumberAfter(p, before), events[last]);
    EventIsSane(p, NumberAfter(p, before), events[last]);
    EventsMakeRun(p, ssrcs, before);
    EventsMakeRun(p, ssrcs, events);
    HistoryOnlyWatches(p, steps);
    HistoryOnlyWatches(p, steps + more);
    InParts(p, FreshTrack(), steps, more);
  }

  /** The stream behind the run, over all events: however its other tracks behave, the stream's
      video track ends as the run's does; and of all that the stream's methods hand to the
      observer, that track's part is its first transmissions and resends in the order of the run. */
  lemma {:induction false} StreamFollowsRun(tracks: map<UInt32, Track>, p: RtpParams, events: seq<Event>)
    requires Start(tracks, p, events)
    ensures AfterEvents(tracks, p, events)[p.ssrc] == Track(p, RunOf(p, tracks.Keys, events).track)
    ensures Untagged(HandedDuring(tracks, p, events)) == SentDuring(tracks, p, events)
    ensures AllSane(StepsOf(p, events))
    ensures DataFor(HandedDuring(tracks, p, events), p.ssrc) == StepsDatas(p, FreshTrack(), StepsOf(p, events))
    decreases |events|
  {
    hide PacketsOf, RunOf, EventSteps, AfterEvent, HandedAt, SentAt, FreshTrack, Handled, StepsDatas;
    if events == [] {
      NoEvents(p, tracks.Keys);
    } else {
      var last := |events| - 1;
      var before := events[..last];
      var n, now := NumberAfter(p, before), AfterEvents(tracks, p, before);
      StreamFollowsRun(tracks, p, before);
      RunOfMore(p, tracks.Keys, events);
      EventFollows(now, p, n, events[last]);
      DataForInParts(HandedDuring(tracks, p, before), HandedAt(now, p, n, events[last]), p.ssrc);
      UntaggedInParts(HandedDuring(tracks, p, before), HandedAt(now, p, n, events[last]));
      StepsDatasInParts(p, FreshTrack(), StepsOf(p, before), EventSteps(p, n, events[last]));
    }
  }

  lemma NoEvents(p: RtpParams, ssrcs: set<UInt32>)
    requires p.ssrc in ssrcs
    ensures RunOf(p, ssrcs, []).track == FreshTrack() && StepsDatas(p, FreshTrack(), []) == []
  {
  }

  // ----- everything in the history was handed over -----

  lemma {:induction false} SentIsData(p: RtpParams, s: TrackState, steps: seq<Step>, j: nat)
    requires s.Ok() && AllSane(steps) && j < |Sends(steps)|
    ensures Sends(steps)[j].data in StepsDatas(p, s, steps)
    decreases |steps|
  {
    hide AfterAll, ResentAt;
    var last := |steps| - 1;
    if j < |Sends(steps[..last])| {
      SentIsData(p, s, steps[..last], j);
    }
  }

  lemma {:induction false} ResentIsData(p: RtpParams, s: TrackState, steps: seq<Step>, i: nat)
    requires s.Ok() && AllSane(steps) && i < |ResentDuring(p, s, steps)|
    ensures ResentDuring(p, s, steps)[i].data in StepsDatas(p, s, steps)
    decreases |steps|
  {
    hide AfterAll;
    var last := |steps| - 1;
    if i < |ResentDuring(p, s, steps[..last])| {
      ResentIsData(p, s, steps[..last], i);
    } else {
      var now := AfterAll(p, s, steps[..last]);
      assert ResentDuring(p, s, steps)[i].data in Datas(ResentAt(p, now, steps[last])) by {
        var r := ResentAt(p, now, steps[last]);
        assert Datas(r)[i - |ResentDuring(p, s, steps[..last])|] == ResentDuring(p, s, steps)[i].data;
      }
    }
  }

  lemma {:induction false} DataForIsHanded(hs: seq<Handed>, x: UInt32, data: seq<Byte>)
    requires data in DataFor(hs, x)
    ensures data in Untagged(hs)
    decreases |hs|
  {
    var last := |hs| - 1;
    if data in DataFor(hs[..last], x) {
      DataForIsHanded(hs[..last], x, data);
      var k :| 0 <= k < last && Untagged(hs[..last])[k] == data;
      assert Untagged(hs)[k] == data;
    } else {
      assert Untagged(hs)[last] == data;
    }
  }

  /** Every packet and every resend of the run was handed to the observer. */
  lemma HistoryWasSent(tracks: map<UInt32, Track>, p: RtpParams, events: seq<Event>, data: seq<Byte>)
    requires Start(tracks, p, events)
    requires var w := RunOf(p, tracks.Keys, events);
             || (exists j :: 0 <= j < |w.sent| && data == w.sent[j].data)
             || (exists i :: 0 <= i < |w.log| && data == w.log[i].resend.data)
    ensures data in SentDuring(tracks, p, events)
  {
    hide StepsOf, Run, StepsDatas, SentDuring, HandedDuring, AfterEvents, FreshTrack;
    var w, steps := RunOf(p, tracks.Keys, events), StepsOf(p, events);
    EventsMakeRun(p, tracks.Keys, events);
    StreamFollowsRun(tracks, p, events);
    HistoryOnlyWatches(p, steps);
    RunSends(p, steps);
    if j :| 0 <= j < |w.sent| && data == w.sent[j].data {
      SentIsData(p, FreshTrack(), steps, j);
    } else {
      var i :| 0 <= i < |w.log| && data == w.log[i].resend.data;
      ResentIsData(p, FreshTrack(), steps, i);
    }
    DataForIsHanded(HandedDuring(tracks, p, events), p.ssrc, data);
  }

  // ----- nothing else was, and nothing twice -----

  lemma {:induction false} RunGrows(p: RtpParams, a: seq<Step>, b: seq<Step>)
    requires GoodSteps(p, a) && GoodSteps(p, a + b)
    ensures Run(p, a).sent <= Run(p, a + b).sent && Run(p, a).log <= Run(p, a + b).log
    decreases |b|
  {
    hide NewEntry, AfterPacket, AfterRequest, AfterReport, Serves, Own, TrackState.Ok;
    if b == [] {
      assert a + b == a;
    } else {
      var front := b[..|b| - 1];
      assert (a + b)[..|a + b| - 1] == a + front;
      RunGrows(p, a, front);
    }
  }

  lemma PacketDatasInParts(a: seq<RtpPacket>, b: seq<RtpPacket>)
    ensures PacketDatas(a + b) == PacketDatas(a) + PacketDatas(b)
  {
  }

  /** What the steps of a track send, as a multiset: each first transmission and each resend once. */
  lemma {:induction false} StepsDatasOnce(p: RtpParams, s: TrackState, steps: seq<Step>)
    requires s.Ok() && AllSane(steps)
    ensures multiset(StepsDatas(p, s, steps))
            == multiset(PacketDatas(Sends(steps))) + multiset(Datas(ResentDuring(p, s, steps)))
    decreases |steps|
  {
    hide AfterAll, ResentAt, Datas, PacketDatas;
    if steps != [] {
      var last := |steps| - 1;
      var front, now := steps[..last], AfterAll(p, s, steps[..last]);
      StepsDatasOnce(p, s, front);
      StepInParts(p, now, Sends(front), ResentDuring(p, s, front), steps[last]);
    } else {
      NoDatas();
    }
  }

  lemma NoDatas()
    ensures Datas([]) == [] && PacketDatas([]) == []
  {
  }

  lemma StepInParts(p: RtpParams, s: TrackState, sends: seq<RtpPacket>, resends: seq<Resend>, step: Step)
    requires s.Ok() && Sane(step)
    ensures multiset(PacketDatas(sends + if step.Send? then [step.pkt] else []))
            + multiset(Datas(resends + ResentAt(p, s, step)))
            == multiset(PacketDatas(sends)) + multiset(Datas(resends)) + multiset(StepDatas(p, s, step))
  {
    if step.Send? {
      PacketDatasInParts(sends, [step.pkt]);
      assert PacketDatas([step.pkt]) == [step.pkt.data];
      assert resends + [] == resends;
    } else {
      DatasInParts(resends, ResentAt(p, s, step));
      assert sends + [] == sends;
    }
  }

  /** Over all events: what the observer is handed for the video track is each first transmission
      and each resend of the run exactly once. */
  lemma HandedOnce(tracks: map<UInt32, Track>, p: RtpParams, events: seq<Event>)
    requires Start(tracks, p, events)
    ensures var w := RunOf(p, tracks.Keys, events);
            var datas := DataFor(HandedDuring(tracks, p, events), p.ssrc);
            && |datas| == |w.sent| + |w.log|
            && multiset(datas) == multiset(seq(|w.sent|, i requires 0 <= i < |w.sent| => w.sent[i].data))
                                  + multiset(seq(|w.log|, i requires 0 <= i < |w.log| => w.log[i].resend.data))
  {
    hide StepsOf, Run, StepsDatas, HandedDuring, FreshTrack, AfterAll, ResentDuring, Sends, DataFor, AfterEvents;
    hide Untagged, SentDuring, PacketsOf, Handled, AllOk, TrackState.Ok, AllSane;
    var w, steps := RunOf(p, tracks.Keys, events), StepsOf(p, events);
    EventsMakeRun(p, tracks.Keys, events);
    StreamFollowsRun(tracks, p, events);
    HistoryOnlyWatches(p, steps);
    RunSends(p, steps);
    StepsDatasOnce(p, FreshTrack(), steps);
    assert PacketDatas(w.sent) == seq(|w.sent|, i requires 0 <= i < |w.sent| => w.sent[i].data);
    assert Datas(Resends(w.log)) == seq(|w.log|, i requires 0 <= i < |w.log| => w.log[i].resend.data);
    var datas := DataFor(HandedDuring(tracks, p, events), p.ssrc);
    assert |multiset(datas)| == |datas|;
  }

  /** Everything the observer is handed belongs to a track of the stream. */
  lemma {:induction false} OnlyTracksHanded(tracks: map<UInt32, Track>, p: RtpParams, events: seq<Event>)
    requires Start(tracks, p, events)
    ensures OfTracks(HandedDuring(tracks, p, events), tracks.Keys)
    decreases |events|
  {
    hide AllOk, FreshTrack, AfterEvent, FramePackets, HandedForFeedback, PacketsOf, PacketDatas, NacksKnown;
    if events != [] {
      var last := |events| - 1;
      var now := AfterEvents(tracks, p, events[..last]);
      OnlyTracksHanded(tracks, p, events[..last]);
      if events[last].Feedback? && Rtcp.ParseAll(events[last].data, 0).Some? {
        OnlyTracksResend(now, Rtcp.ParseAll(events[last].data, 0).value, events[last].clock);
      }
    }
  }

  /** One more event, in order: a frame makes the stream hand over the new packets, feedback the
      data of the video track's new log entries, one each. */
  lemma HandedInOrder(tracks: map<UInt32, Track>, p: RtpParams, events: seq<Event>)
    requires Start(tracks, p, events) && events != []
    ensures var last := |events| - 1;
            var before := events[..last];
            var w, w' := RunOf(p, tracks.Keys, before), RunOf(p, tracks.Keys, events);
            var handed := HandedAt(AfterEvents(tracks, p, before), p, NumberAfter(p, before), events[last]);
            var datas := DataFor(handed, p.ssrc);
            && w.sent <= w'.sent && w.log <= w'.log
            && if events[last].Encoded? then
                 && |w'.log| == |w.log| && |datas| == |w'.sent| - |w.sent|
                 && forall k :: 0 <= k < |datas| ==> datas[k] == w'.sent[|w.sent| + k].data
               else
                 && |w'.sent| == |w.sent| && |datas| == |w'.log| - |w.log|
                 && forall k :: 0 <= k < |datas| ==> datas[k] == w'.log[|w.log| + k].resend.data
  {
    hide StepsOf, Run, StepsDatas, EventSteps, HandedAt, SentAt, FreshTrack, PacketsOf, AllOk, Handled;
    hide AfterAll, AfterEvents, AfterEvent, DataFor, Untagged;
    hide Sends, ResentDuring, Datas, PacketDatas, Resends, TrackState.Ok;
    var last := |events| - 1;
    var before := events[..last];
    var n, steps := NumberAfter(p, before), StepsOf(p, before);
    var w, more := RunOf(p, tracks.Keys, before), EventSteps(p, n, events[last]);
    StreamFollowsRun(tracks, p, before);
    RunOfMore(p, tracks.Keys, events);
    EventFollows(AfterEvents(tracks, p, before), p, n, events[last]);
    EventHands(p, w.track, n, events[last]);
    EventsMakeRun(p, tracks.Keys, before);
    EventsMakeRun(p, tracks.Keys, events);
    MoreOfRun(p, steps, more);
    NewInHistory(w, RunOf(p, tracks.Keys, events), Sends(more), ResentDuring(p, w.track, more),
                 StepsDatas(p, w.track, more), events[last].Encoded?);
  }

  lemma NewInHistory(w: World, w': World, sends: seq<RtpPacket>, resends: seq<Resend>,
                     datas: seq<seq<Byte>>, encoded: bool)
    requires w'.sent == w.sent + sends && w.log <= w'.log && Resends(w'.log) == Resends(w.log) + resends
    requires if encoded then resends == [] && datas == PacketDatas(sends)
             else sends == [] && datas == Datas(resends)
    ensures w.sent <= w'.sent
    ensures if encoded then
              && |w'.log| == |w.log| && |datas| == |w'.sent| - |w.sent|
              && forall k :: 0 <= k < |datas| ==> datas[k] == w'.sent[|w.sent| + k].data
            else
              && |w'.sent| == |w.sent| && |datas| == |w'.log| - |w.log|
              && forall k :: 0 <= k < |datas| ==> datas[k] == w'.log[|w.log| + k].resend.data
  {
    assert |Resends(w'.log)| == |w.log| + |resends|;
    forall k | 0 <= k < |resends|
      ensures resends[k] == w'.log[|w.log| + k].resend
    {
      assert Resends(w'.log)[|w.log| + k] == resends[k];
    }
  }

  lemma EventHands(p: RtpParams, s: TrackState, n: UInt16, event: Event)
    requires s.Ok()
    ensures var steps := EventSteps(p, n, event);
            && AllSane(steps)
            && if event.Encoded? then
                 ResentDuring(p, s, steps) == [] && StepsDatas(p, s, steps) == PacketDatas(Sends(steps))
               else
                 Sends(steps) == [] && StepsDatas(p, s, steps) == Datas(ResentDuring(p, s, steps))
  {
    hide FramePackets, FeedbackSteps, StepsDatas, PacketDatas, Sends, ResentDuring;
    EventIsSane(p, n, event);
    EventSends(p, n, event);
    match event
    case Encoded(frame, nows) =>
      NothingAsked(p, s, EventSteps(p, n, event));
      DatasOfSends(p, s, FramePackets(ConfigOf(p), frame.data, n, frame.timestamp), nows);
    case Feedback(data, clock) =>
      if Rtcp.ParseAll(data, 0).Some? {
        FeedbackSendsNothing(p, Rtcp.ParseAll(data, 0).value, clock);
      }
      DatasOfOthers(p, s, EventSteps(p, n, event));
  }

  /** What further steps add to the history of a run. */
  lemma MoreOfRun(p: RtpParams, steps: seq<Step>, more: seq<Step>)
    requires GoodSteps(p, steps) && GoodSteps(p, steps + more) && AllSane(more)
    ensures var w, w' := Run(p, steps), Run(p, steps + more);
            && w.sent <= w'.sent && w.log <= w'.log
            && w'.sent == w.sent + Sends(more)
            && Resends(w'.log) == Resends(w.log) + ResentDuring(p, w.track, more)
  {
    hide Run, ResentDuring, Sends, FreshTrack, AfterAll;
    RunGrows(p, steps, more);
    RunSends(p, steps);
    RunSends(p, steps + more);
    SendsInParts(steps, more);
    HistoryOnlyWatches(p, steps);
    HistoryOnlyWatches(p, steps + more);
    InParts(p, FreshTrack(), steps, more);
  }

  /** What a timer round reports of the video track after any events: the packetizer's packets. */
  lemma ReportAfterEvents(tracks: map<UInt32, Track>, p: RtpParams, events: seq<Event>, now: UInt64)
    requires Start(tracks, p, events)
    ensures var t, packets := AfterEvents(tracks, p, events)[p.ssrc], PacketsOf(p, events);
            var r := SenderReportOf(t.params, t.state, now);
            && (r.Some? <==> |packets| % TWO_TO_32 != 0)
            && (r.Some? ==>
                  && r.value.senderSsrc == p.ssrc && r.value.sendPacketCount == |packets| % TWO_TO_32
                  && r.value.sendOctets == TotalSize(packets) % TWO_TO_32)
  {
    hide StepsOf, Run, StepsDatas, AfterEvents, FreshTrack, PacketsOf, AllOk, Handled, TotalSize, DataFor;
    StreamFollowsRun(tracks, p, events);
    EventsMakeRun(p, tracks.Keys, events);
    RunCounts(p, StepsOf(p, events));
  }

  // ----- the stream object over events -----

  /** How an event moves the packetizer's number. */
  function NumberThen(p: RtpParams, n: UInt16, event: Event): UInt16 {
    match event
    case Encoded(frame, _) => Next(n, |FramePackets(ConfigOf(p), frame.data, n, frame.timestamp)|)
    case Feedback(_, _) => n
  }

  lemma NumberAdvances(p: RtpParams, events: seq<Event>)
    requires events != []
    ensures var last := |events| - 1;
            NumberAfter(p, events) == NumberThen(p, NumberAfter(p, events[..last]), events[last])
  {
    hide FramePackets;
    var last := |events| - 1;
    var before := events[..last];
    if events[last].Encoded? {
      assert FramesOf(events)[..|FramesOf(events)| - 1] == FramesOf(before);
      var frame := events[last].frame;
      NextNext(0, |PacketsOf(p, before)|,
               |FramePackets(ConfigOf(p), frame.data, NumberAfter(p, before), frame.timestamp)|);
    } else {
      assert FramesOf(events) == FramesOf(before);
    }
  }

  lemma NumberAtStart(p: RtpParams)
    ensures NumberAfter(p, []) == 0
  {
  }

  /** A stream whose packetizer feeds track p and stands at number n. */
  ghost predicate Feeds(stream: MediaStream, p: RtpParams, n: UInt16)
    reads stream, stream.owner.Keys
  {
    && stream.Valid() && stream.packetizer != null
    && stream.packetizer.config == ConfigOf(p) && stream.packetizer.seqnum == n
  }

  /** One event, handed to the method it is for. */
  method HandleEvent(stream: MediaStream, p: RtpParams, event: Event, ghost n: UInt16)
    requires Feeds(stream, p, n) && Handled(stream.states.Keys, event)
    modifies stream.owner.Keys, stream`states, stream`owner, stream`sent
    ensures Feeds(stream, p, NumberThen(p, n, event)) && stream.Grown()
    ensures stream.states == AfterEvent(old(stream.states), p, n, event)
    ensures stream.sent == old(stream.sent) + SentAt(old(stream.states), p, n, event)
  {
    hide MediaStream.Valid, FramePackets, AllOk, Fed, AfterFeedback, ResentForFeedback, PacketDatas;
    match event {
      case Encoded(frame, nows) =>
        stream.ReceiveH264Packet(frame.data, frame.timestamp, nows);
      case Feedback(data, clock) =>
        stream.ReceiveRctp(data, clock);
    }
  }

  /** The message loop of a session: every event in turn. A stream whose video track and
      packetizer are fresh ends with the tracks of AfterEvents, and has handed to its observer
      exactly SentDuring. */
  method HandleEvents(stream: MediaStream, p: RtpParams, events: seq<Event>)
    requires Feeds(stream, p, 0) && Start(stream.states, p, events)
    modifies stream.owner.Keys, stream`states, stream`owner, stream`sent
    ensures Feeds(stream, p, NumberAfter(p, events)) && stream.Grown()
    ensures stream.states == AfterEvents(old(stream.states), p, events)
    ensures stream.sent == old(stream.sent) + SentDuring(old(stream.states), p, events)
  {
    hide Feeds, Start, AfterEvents, SentDuring, AfterEvent, SentAt, NumberAfter, NumberThen, Handled, AllOk;
    ghost var tracks, sent := stream.states, stream.sent;
    NothingYet(tracks, p, events, sent);
    for k := 0 to |events|
      invariant Start(tracks, p, events[..k])
      invariant Feeds(stream, p, NumberAfter(p, events[..k])) && stream.Grown()
      invariant stream.states == AfterEvents(tracks, p, events[..k])
      invariant stream.sent == sent + SentDuring(tracks, p, events[..k])
    {
      OneEventMore(tracks, p, events, k, sent);
      HandleEvent(stream, p, events[k], NumberAfter(p, events[..k]));
    }
    assert events[..|events|] == events;
  }

  lemma NothingYet(tracks: map<UInt32, Track>, p: RtpParams, events: seq<Event>, sent: seq<seq<Byte>>)
    requires Start(tracks, p, events)
    ensures Start(tracks, p, events[..0]) && NumberAfter(p, events[..0]) == 0
    ensures AfterEvents(tracks, p, events[..0]) == tracks && sent + SentDuring(tracks, p, events[..0]) == sent
  {
    hide FreshTrack, AllOk;
    assert events[..0] == [];
    NumberAtStart(p);
  }

  lemma OneEventMore(tracks: map<UInt32, Track>, p: RtpParams, events: seq<Event>, k: nat, sent: seq<seq<Byte>>)
    requires Start(tracks, p, events) && k < |events|
    ensures var before, more, n := events[..k], events[..k + 1], NumberAfter(p, events[..k]);
            && Start(tracks, p, before) && Start(tracks, p, more)
            && var now := AfterEvents(tracks, p, before);
               && AllOk(now) && p.ssrc in now && Handled(now.Keys, events[k])
               && AfterEvents(tracks, p, more) == AfterEvent(now, p, n, events[k])
               && NumberAfter(p, more) == NumberThen(p, n, events[k])
               && sent + SentDuring(tracks, p, more)
                  == sent + SentDuring(tracks, p, before) + SentAt(now, p, n, events[k])
  {
    hide AfterEvent, SentAt, NumberAfter, NumberThen, Handled, AllOk, FreshTrack, ConfigOf;
    assert events[..k + 1][..k] == events[..k];
    NumberAdvances(p, events[..k + 1]);
  }
}
