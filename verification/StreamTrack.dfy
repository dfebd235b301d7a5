/** StreamTrack of media_stream.cpp: the send buffer of one RTP stream, NACK handling with
    retransmission, and the statistics for and from RTCP reports.

    TrackState and the functions on it specify the class; StreamTrack implements them on
    a ring of stored packets that it rewrites in place. */
module StreamTrack {
  import opened Bytes
  import opened RtpPacketizer
  import opened RtxPacket
  import opened Ntp
  import Rtcp

  const DEFAULT_RTT_MILLIS: UInt64 := 100
  const SEND_BUFFER_CAPACITY: nat := 1000

  datatype RtpParams = RtpParams(
    ssrc: UInt32, clockRate: UInt32, payloadType: Byte,
    rtxSsrc: UInt32, rtxPayloadType: Byte, isRtxEnabled: bool, isNackEnabled: bool)

  /** A packet handed to the observer for resending: who asked, when, and the bytes. */
  datatype Resend = Resend(requested: UInt16, millis: UInt64, data: seq<Byte>)

  // ----- specification -----

  datatype TrackState = TrackState(
    maxRtpTimestamp: UInt32, maxPacketMillis: UInt32, rtt: UInt64, slots: seq<Option<Stored>>,
    sendPacketCount: UInt32, sendOctets: UInt32, rtxSequenceNumber: UInt16)
  {
    ghost predicate Ok() {
      && |slots| == SEND_BUFFER_CAPACITY
      && forall k :: 0 <= k < |slots| && slots[k].Some? ==>
           HeaderFits(slots[k].value.headerOffset, slots[k].value.data)
    }
  }

  /** A track that has sent nothing. */
  function FreshTrack(): (s: TrackState)
    ensures s.Ok() && forall k :: 0 <= k < SEND_BUFFER_CAPACITY ==> s.slots[k] == None
  {
    TrackState(0, 0, DEFAULT_RTT_MILLIS, seq(SEND_BUFFER_CAPACITY, _ => None), 0, 0, 0)
  }

  function Slot(seqnum: UInt16): (k: nat)
    ensures k < SEND_BUFFER_CAPACITY
  {
    seqnum % SEND_BUFFER_CAPACITY
  }

  function MaxResendDelay(p: RtpParams): UInt32 {
    p.clockRate * 2 % TWO_TO_32
  }

  function StoredOf(pkt: RtpPacket): Stored {
    Stored(pkt.ssrc, pkt.sequenceNumber, pkt.timestamp, pkt.headerOffset, pkt.data, false, 0)
  }

  function AfterPacket(p: RtpParams, s: TrackState, pkt: RtpPacket, now: UInt64): TrackState
    requires s.Ok()
  {
    if pkt.ssrc != p.ssrc then s
    else
      s.(sendPacketCount := (s.sendPacketCount + 1) % TWO_TO_32,
         sendOctets := (s.sendOctets + |pkt.data|) % TWO_TO_32,
         maxRtpTimestamp := pkt.timestamp,
         maxPacketMillis := now % TWO_TO_32,
         slots := if p.isNackEnabled then s.slots[Slot(pkt.sequenceNumber) := Some(StoredOf(pkt))] else s.slots)
  }

  /** The age check and the throttle, in the source's unsigned arithmetic. */
  predicate MayResend(p: RtpParams, s: TrackState, st: Stored, now: UInt64) {
    && (s.maxRtpTimestamp - st.timestamp) % TWO_TO_32 <= MaxResendDelay(p)
    && (st.resentMillis == 0 || (now - st.resentMillis) % TWO_TO_64 > s.rtt)
  }

  predicate Serves(p: RtpParams, s: TrackState, seqnum: UInt16, now: UInt64)
    requires s.Ok()
  {
    s.slots[Slot(seqnum)].Some? && MayResend(p, s, s.slots[Slot(seqnum)].value, now)
  }

  /** Slot k resent now: its packet is stamped and, with RTX, put into retransmission form. */
  function Rewritten(p: RtpParams, s: TrackState, k: nat, now: UInt64): (s': TrackState)
    requires s.Ok() && k < SEND_BUFFER_CAPACITY && s.slots[k].Some?
    ensures s'.Ok() && s'.slots[k].Some?
  {
    var st := s.slots[k].value.(resentMillis := now);
    if p.isRtxEnabled then
      s.(slots := s.slots[k := Some(MadeRtx(st, p.rtxSsrc, s.rtxSequenceNumber, p.rtxPayloadType))],
         rtxSequenceNumber := Next(s.rtxSequenceNumber, 1))
    else
      s.(slots := s.slots[k := Some(st)])
  }

  /** One requested sequence number. */
  function AfterRequest(p: RtpParams, s: TrackState, seqnum: UInt16, now: UInt64): (s': TrackState)
    requires s.Ok()
    ensures s'.Ok()
  {
    if Serves(p, s, seqnum, now) then Rewritten(p, s, Slot(seqnum), now) else s
  }

  function ResentOn(p: RtpParams, s: TrackState, seqnum: UInt16, now: UInt64): seq<Resend>
    requires s.Ok()
  {
    if Serves(p, s, seqnum, now) then
      [Resend(seqnum, now, Rewritten(p, s, Slot(seqnum), now).slots[Slot(seqnum)].value.data)]
    else []
  }

  /** A list of requested numbers; nows[i] is what the clock shows when number i is looked at. */
  function AfterRequests(p: RtpParams, s: TrackState, lost: seq<UInt16>, nows: seq<UInt64>): (s': TrackState)
    requires s.Ok() && |nows| == |lost|
    ensures s'.Ok()
  {
    if lost == [] then s
    else
      var last := |lost| - 1;
      AfterRequest(p, AfterRequests(p, s, lost[..last], nows[..last]), lost[last], nows[last])
  }

  function ResentOnAll(p: RtpParams, s: TrackState, lost: seq<UInt16>, nows: seq<UInt64>): seq<Resend>
    requires s.Ok() && |nows| == |lost|
  {
    if lost == [] then []
    else
      var last := |lost| - 1;
      ResentOnAll(p, s, lost[..last], nows[..last])
      + ResentOn(p, AfterRequests(p, s, lost[..last], nows[..last]), lost[last], nows[last])
  }

  function AfterReport(s: TrackState, lastSr: UInt32, delaySinceLastSr: UInt32, now: UInt64): TrackState {
    if lastSr != 0 then s.(rtt := RoundTrip(now, lastSr, delaySinceLastSr)) else s
  }

  /** The sender report of a track, None before the first packet. Its RTP timestamp is the last
      one sent, moved on by the time passed since (size_t arithmetic, then cut to 32 bits). */
  function SenderReportOf(p: RtpParams, s: TrackState, now: UInt64): Option<Rtcp.SenderReport> {
    if s.sendPacketCount == 0 then None
    else
      var ntp := CreateFromMillis(now);
      var passed := (now - s.maxPacketMillis) % TWO_TO_64 * p.clockRate % TWO_TO_64 / 1000;
      Some(Rtcp.SenderReport(p.ssrc, ntp.seconds, ntp.fractions, (s.maxRtpTimestamp + passed) % TWO_TO_32,
                             s.sendPacketCount, s.sendOctets))
  }

  // ----- implementation -----

  class StreamTrack {
    const params: RtpParams
    var maxRtpTimestamp: UInt32
    var maxPacketMillis: UInt32
    var rtt: UInt64
    const sendBuffer: array<RtpStoragePacket?>
    var sendPacketCount: UInt32
    var sendOctets: UInt32
    var rtxSequenceNumber: UInt16
    /** The packets handed to the observer so far, in order. */
    var resent: seq<Resend>
    ghost var Repr: set<object>

    ghost predicate Valid()
      reads this, Repr
      ensures Valid() ==> this in Repr
    {
      && this in Repr && sendBuffer in Repr && sendBuffer.Length == SEND_BUFFER_CAPACITY
      && (forall i :: 0 <= i < SEND_BUFFER_CAPACITY && sendBuffer[i] != null ==>
            sendBuffer[i] in Repr && sendBuffer[i].data in Repr && sendBuffer[i].Valid())
      && (forall i, j :: 0 <= i < j < SEND_BUFFER_CAPACITY && sendBuffer[i] != null && sendBuffer[j] != null ==>
            sendBuffer[i] != sendBuffer[j] && sendBuffer[i].data != sendBuffer[j].data)
    }

    ghost function SlotView(i: nat): Option<Stored>
      reads this, Repr
      requires Valid() && i < SEND_BUFFER_CAPACITY
    {
      if sendBuffer[i] == null then None else Some(sendBuffer[i].View())
    }

    ghost function View(): (s: TrackState)
      reads this, Repr
      requires Valid()
      ensures s.Ok()
      ensures forall i :: 0 <= i < SEND_BUFFER_CAPACITY ==> s.slots[i] == SlotView(i)
    {
      TrackState(maxRtpTimestamp, maxPacketMillis, rtt,
                 seq(SEND_BUFFER_CAPACITY,
                     i requires 0 <= i < SEND_BUFFER_CAPACITY && Valid() reads this, Repr => SlotView(i)),
                 sendPacketCount, sendOctets, rtxSequenceNumber)
    }

    constructor (params: RtpParams)
      ensures Valid() && fresh(Repr) && this.params == params
      ensures View() == FreshTrack()
      ensures resent == []
    {
      this.params := params;
      maxRtpTimestamp, maxPacketMillis, rtt := 0, 0, DEFAULT_RTT_MILLIS;
      sendPacketCount, sendOctets, rtxSequenceNumber := 0, 0, 0;
      resent := [];
      var buffer := new RtpStoragePacket?[SEND_BUFFER_CAPACITY](_ => null);
      sendBuffer := buffer;
      Repr := {this, buffer};
    }
 
    method ReceivePacket(pkt: RtpPacket, now: UInt64)
      requires Valid() && HeaderFits(pkt.headerOffset, pkt.data)
      modifies Repr
      ensures Valid() && fresh(Repr - old(Repr)) && resent == old(resent)
      ensures View() == AfterPacket(params, old(View()), pkt, now)
      ensures pkt.ssrc != params.ssrc ==> View() == old(View())
    {
      hide FreshTrack;
      if pkt.ssrc != params.ssrc {
        return;
      }
      sendPacketCount := (sendPacketCount + 1) % TWO_TO_32;
      sendOctets := (sendOctets + |pkt.data|) % TWO_TO_32;
      maxRtpTimestamp := pkt.timestamp;
      maxPacketMillis := now % TWO_TO_32;
      if params.isNackEnabled {
        var stored := new RtpStoragePacket(pkt);
        sendBuffer[Slot(pkt.sequenceNumber)] := stored;
        Repr := Repr + {stored, stored.data};
      }
    }

    /** The body of the NACK loop for one requested number. */
    method Request(seqNum: UInt16, now: UInt64)
      requires Valid()
      modifies Repr
      ensures Valid() && Repr == old(Repr)
      ensures View() == AfterRequest(params, old(View()), seqNum, now)
      ensures resent == old(resent) + ResentOn(params, old(View()), seqNum, now)
    {
      hide Rewritten, FreshTrack;
      var pkt := sendBuffer[Slot(seqNum)];
      assert View().slots[Slot(seqNum)] == SlotView(Slot(seqNum));
      if pkt == null {
        return;
      }
      if (maxRtpTimestamp - pkt.timestamp) % TWO_TO_32 > MaxResendDelay(params) {
        return;
      }
      if pkt.resentMillis != 0 && (now - pkt.resentMillis) % TWO_TO_64 <= rtt {
        return;
      }
      Rewrite(Slot(seqNum), now);
      assert SlotView(Slot(seqNum)) == View().slots[Slot(seqNum)];
      resent := resent + [Resend(seqNum, now, pkt.data[..pkt.Size()])];
    }

    method Rewrite(k: nat, now: UInt64)
      requires Valid() && k < SEND_BUFFER_CAPACITY && sendBuffer[k] != null
      modifies sendBuffer[k], sendBuffer[k].data, `rtxSequenceNumber
      ensures Valid()
      ensures View() == Rewritten(params, old(View()), k, now)
    {
      var pkt := sendBuffer[k];
      pkt.SetResendMillisecs(now);
      if params.isRtxEnabled {
        pkt.MakeRtxPacket(params.rtxSsrc, rtxSequenceNumber, params.rtxPayloadType);
        rtxSequenceNumber := Next(rtxSequenceNumber, 1);
      }
      assert forall i :: 0 <= i < SEND_BUFFER_CAPACITY && i != k ==> SlotView(i) == old(SlotView(i));
      assert View().slots == Rewritten(params, old(View()), k, now).slots;
    }

    method ReceiveNack(mediaSsrc: UInt32, lost: seq<UInt16>, nows: seq<UInt64>)
      requires Valid() && |nows| == |lost|
      modifies Repr
      ensures Valid() && Repr == old(Repr)
      ensures mediaSsrc == params.ssrc && params.isNackEnabled ==>
        && View() == AfterRequests(params, old(View()), lost, nows)
        && resent == old(resent) + ResentOnAll(params, old(View()), lost, nows)
      ensures mediaSsrc != params.ssrc || !params.isNackEnabled ==> View() == old(View()) && resent == old(resent)
    {
      if mediaSsrc != params.ssrc || !params.isNackEnabled {
        return;
      }
      for i := 0 to |lost|
        invariant Valid() && Repr == old(Repr)
        invariant View() == AfterRequests(params, old(View()), lost[..i], nows[..i])
        invariant resent == old(resent) + ResentOnAll(params, old(View()), lost[..i], nows[..i])
      {
        Request(lost[i], nows[i]);
        assert lost[..i + 1][..i] == lost[..i] && nows[..i + 1][..i] == nows[..i];
      }
      assert lost[..|lost|] == lost && nows[..|nows|] == nows;
    }

    method CreateRtcpSenderReport(now: UInt64) returns (report: Option<Rtcp.SenderReport>)
      requires Valid()
      ensures report == SenderReportOf(params, View(), now)
    {
      if sendPacketCount == 0 {
        return None;
      }
      var ntp := CreateFromMillis(now);
      var diffInMillis := (now - maxPacketMillis) % TWO_TO_64;
      var diffInClockRate := diffInMillis * params.clockRate % TWO_TO_64 / 1000;
      report := Some(Rtcp.SenderReport(
        params.ssrc, ntp.seconds, ntp.fractions, (maxRtpTimestamp + diffInClockRate) % TWO_TO_32,
        sendPacketCount, sendOctets));
    }

    method ReceiveReceiverReport(lastSr: UInt32, delaySinceLastSr: UInt32, now: UInt64)
      requires Valid()
      modifies `rtt
      ensures Valid() && View() == AfterReport(old(View()), lastSr, delaySinceLastSr, now)
    {
      var compactNtp := CreateFromMillis(now).ToCompactNtp();
      if lastSr != 0 {
        var rtpCompactNtp := (compactNtp - delaySinceLastSr - lastSr) % TWO_TO_32;
        rtt := CreateFromCompactNtp(rtpCompactNtp).ToMillis();
      }
    }
  }
}
