/** gop_cache.cpp and the observer handling of media_source.cpp: fan-out of media packets
    to observers. Every operation runs under one mutex and is atomic here. */
module MediaSource {
  import opened Bytes

  /** A media packet: video or audio, key frame or not, and its bytes. */
  datatype MediaPacket = MediaPacket(isVideo: bool, isKey: bool, data: seq<Byte>)

  type Observer = nat

  // ----- specification -----

  /** What each observer has been handed so far. */
  type Deliveries = map<Observer, seq<MediaPacket>>

  datatype SourceState = SourceState(
    observers: seq<Observer>, newObservers: seq<Observer>, cache: seq<MediaPacket>, delivered: Deliveries)

  predicate StartsGop(p: MediaPacket) {
    p.isVideo && p.isKey
  }

  function AfterAdd(cache: seq<MediaPacket>, p: MediaPacket): seq<MediaPacket> {
    if StartsGop(p) then [p] else cache + [p]
  }

  function Received(d: Deliveries, o: Observer): seq<MediaPacket> {
    if o in d then d[o] else []
  }

  function Deliver(d: Deliveries, o: Observer, ps: seq<MediaPacket>): Deliveries {
    d[o := Received(d, o) + ps]
  }

  function DeliverAll(d: Deliveries, os: seq<Observer>, p: MediaPacket): Deliveries {
    if os == [] then d
    else Deliver(DeliverAll(d, os[..|os| - 1], p), os[|os| - 1], [p])
  }

  function WithObserver(os: seq<Observer>, o: Observer): seq<Observer> {
    if o in os then os else os + [o]
  }

  /** The list without the first occurrence of o. */
  function Without(os: seq<Observer>, o: Observer): seq<Observer> {
    if os == [] then []
    else if os[0] == o then os[1..]
    else [os[0]] + Without(os[1..], o)
  }

  lemma {:induction false} FirstAt(os: seq<Observer>, i: nat, o: Observer)
    requires i <= |os| && o !in os[..i] && (i < |os| ==> os[i] == o)
    ensures Without(os, o) == if i == |os| then os else os[..i] + os[i + 1..]
    decreases i
  {
    if i > 0 {
      assert os[..i][0] == os[0] && forall k :: 0 <= k < i - 1 ==> os[1..][k] == os[..i][k + 1];
      FirstAt(os[1..], i - 1, o);
      assert os == [os[0]] + os[1..];
    }
  }

  function AfterRegister(gop: bool, s: SourceState, o: Observer): SourceState {
    if gop then s.(newObservers := WithObserver(s.newObservers, o))
    else s.(observers := WithObserver(s.observers, o))
  }

  function AfterDeregister(gop: bool, s: SourceState, o: Observer): SourceState {
    s.(observers := Without(s.observers, o),
       newObservers := if gop then Without(s.newObservers, o) else s.newObservers)
  }

  /** One waiting observer joins: it gets the cached packets and becomes active. */
  function AfterJoinOf(s: SourceState, o: Observer): SourceState {
    s.(observers := WithObserver(s.observers, o), delivered := Deliver(s.delivered, o, s.cache))
  }

  function AfterJoins(s: SourceState, os: seq<Observer>): SourceState {
    if os == [] then s
    else AfterJoinOf(AfterJoins(s, os[..|os| - 1]), os[|os| - 1])
  }

  function AfterCheck(s: SourceState): SourceState {
    AfterJoins(s, s.newObservers).(newObservers := [])
  }

  function AfterPublish(gop: bool, s: SourceState, p: MediaPacket): SourceState {
    s.(delivered := DeliverAll(s.delivered, s.observers, p),
       cache := if gop then AfterAdd(s.cache, p) else s.cache)
  }

  // ----- implementation -----

  class GopCache {
    var cachedPackets: seq<MediaPacket>

    constructor ()
      ensures cachedPackets == []
    {
      cachedPackets := [];
    }

    method AddPacket(pkt: MediaPacket)
      modifies this
      ensures cachedPackets == AfterAdd(old(cachedPackets), pkt)
    {
      if pkt.isVideo && pkt.isKey {
        cachedPackets := [];
      }
      cachedPackets := cachedPackets + [pkt];
    }

    method GetCachedPackets() returns (r: seq<MediaPacket>)
      ensures r == cachedPackets
    {
      r := cachedPackets;
    }
  }

  class MediaSource {
    const enableGopCache: bool
    var observers: seq<Observer>
    var newObservers: seq<Observer>
    const gopCache: GopCache
    /** The packets handed to each observer so far, in order. */
    var delivered: Deliveries

    constructor (enableGopCache: bool)
      ensures this.enableGopCache == enableGopCache && fresh(gopCache)
      ensures View() == SourceState([], [], [], map[])
    {
      this.enableGopCache := enableGopCache;
      observers, newObservers, delivered := [], [], map[];
      gopCache := new GopCache();
    }

    ghost function View(): SourceState
      reads this, gopCache
    {
      SourceState(observers, newObservers, gopCache.cachedPackets, delivered)
    }

    method RegisterObserver(observer: Observer)
      modifies this
      ensures View() == AfterRegister(enableGopCache, old(View()), observer)
    {
      if !enableGopCache {
        if observer !in observers {
          observers := observers + [observer];
        }
      } else {
        if observer !in newObservers {
          newObservers := newObservers + [observer];
        }
      }
    }

    /** find, then erase. */
    method Erase(os: seq<Observer>, o: Observer) returns (r: seq<Observer>)
      ensures r == Without(os, o)
    {
      hide Without;
      var i := 0;
      while i < |os| && os[i] != o
        invariant 0 <= i <= |os| && o !in os[..i]
      {
        i := i + 1;
      }
      FirstAt(os, i, o);
      r := if i == |os| then os else os[..i] + os[i + 1..];
    }

    method DeregisterObserver(observer: Observer)
      modifies this
      ensures View() == AfterDeregister(enableGopCache, old(View()), observer)
    {
      observers := Erase(observers, observer);
      if enableGopCache {
        newObservers := Erase(newObservers, observer);
      }
    }

    method CheckNewObserver()
      modifies this
      ensures View() == AfterCheck(old(View()))
    {
      var cached := gopCache.GetCachedPackets();
      for i := 0 to |newObservers|
        invariant newObservers == old(newObservers)
        invariant View() == AfterJoins(old(View()), newObservers[..i])
      {
        var o := newObservers[i];
        assert newObservers[..i + 1][..i] == newObservers[..i];
        Hand(o, cached);
        if o !in observers {
          observers := observers + [o];
        }
      }
      assert newObservers[..|newObservers|] == newObservers;
      newObservers := [];
    }

    /** Hands the packets to an observer one by one. */
    method Hand(o: Observer, packets: seq<MediaPacket>)
      modifies `delivered
      ensures delivered == Deliver(old(delivered), o, packets)
    {
      ghost var before := Received(delivered, o);
      delivered := delivered[o := Received(delivered, o)];
      assert before + packets[..0] == before;
      for i := 0 to |packets|
        invariant delivered == Deliver(old(delivered), o, packets[..i])
      {
        delivered := delivered[o := delivered[o] + [packets[i]]];
        assert before + packets[..i + 1] == (before + packets[..i]) + [packets[i]];
      }
      assert packets[..|packets|] == packets;
    }

    /** The publishing part of ReadPacket, for video and audio alike. */
    method Publish(p: MediaPacket)
      modifies this, gopCache
      ensures View() == AfterPublish(enableGopCache, old(View()), p)
    {
      for i := 0 to |observers|
        invariant observers == old(observers) && newObservers == old(newObservers)
        invariant gopCache.cachedPackets == old(gopCache.cachedPackets)
        invariant delivered == DeliverAll(old(delivered), observers[..i], p)
      {
        assert observers[..i + 1][..i] == observers[..i];
        Hand(observers[i], [p]);
      }
      assert observers[..|observers|] == observers;
      if enableGopCache {
        gopCache.AddPacket(p);
      }
    }
  }
}
