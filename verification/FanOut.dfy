/** Fan-out safety over every interleaving of registering, leaving, joining and publishing. */
module FanOut {
  import opened MediaSource

  datatype Step = Register(o: Observer) | Deregister(o: Observer) | Check | Publish(p: MediaPacket)

  /** Since an observer became active: how much it had received before, how much had been
      published then, and whether it was handed the cache again while active. */
  datatype Session = Session(before: nat, at: nat, replayed: bool)

  /** A source with everything published and the current sessions. */
  datatype World = World(source: SourceState, history: seq<MediaPacket>, sessions: map<Observer, Session>)

  const INITIAL: World := World(SourceState([], [], [], map[]), [], map[])

  /** Where the current group of pictures starts: at the last video key packet, or at the
      beginning if there was none. */
  function GopStart(h: seq<MediaPacket>): (k: nat)
    ensures k <= |h|
  {
    if h == [] then 0
    else if StartsGop(h[|h| - 1]) then |h| - 1
    else GopStart(h[..|h| - 1])
  }

  lemma {:induction false} GopStartIsLastKey(h: seq<MediaPacket>)
    ensures var k := GopStart(h);
            && (forall j :: k < j < |h| ==> !(h[j].isVideo && h[j].isKey))
            && ((k < |h| && h[k].isVideo && h[k].isKey)
                || (k == 0 && forall j :: 0 <= j < |h| ==> !(h[j].isVideo && h[j].isKey)))
    decreases |h|
  {
    if h != [] && !StartsGop(h[|h| - 1]) {
      var front := h[..|h| - 1];
      GopStartIsLastKey(front);
      assert forall j :: 0 <= j < |front| ==> front[j] == h[j];
    }
  }

  // ----- one step -----

  function Joined(w: World, o: Observer): map<Observer, Session> {
    if o in w.source.observers then
      w.sessions[o := (if o in w.sessions then w.sessions[o] else Session(0, 0, false)).(replayed :=
        (o in w.sessions && w.sessions[o].replayed) || w.source.cache != [])]
    else w.sessions[o := Session(|Received(w.source.delivered, o)|, |w.history|, false)]
  }

  function JoinOf(w: World, o: Observer): World {
    World(AfterJoinOf(w.source, o), w.history, Joined(w, o))
  }

  function Joins(w: World, os: seq<Observer>): World {
    if os == [] then w else JoinOf(Joins(w, os[..|os| - 1]), os[|os| - 1])
  }

  function Advance(gop: bool, w: World, step: Step): World {
    match step
    case Register(o) =>
      World(AfterRegister(gop, w.source, o), w.history,
            if gop || o in w.source.observers then w.sessions
            else w.sessions[o := Session(|Received(w.source.delivered, o)|, |w.history|, false)])
    case Deregister(o) => w.(source := AfterDeregister(gop, w.source, o))
    case Check =>
      if !gop then w
      else
        var w' := Joins(w, w.source.newObservers);
        w'.(source := w'.source.(newObservers := []))
    case Publish(p) => World(AfterPublish(gop, w.source, p), w.history + [p], w.sessions)
  }

  function Run(gop: bool, steps: seq<Step>): World {
    if steps == [] then INITIAL
    else Advance(gop, Run(gop, steps[..|steps| - 1]), steps[|steps| - 1])
  }

  lemma {:induction false} JoinsAreJoins(w: World, os: seq<Observer>)
    ensures Joins(w, os).source == AfterJoins(w.source, os)
    decreases |os|
  {
    if os != [] {
      JoinsAreJoins(w, os[..|os| - 1]);
    }
  }

  /** The steps are the operations of the source. */
  lemma StepsAreOperations(gop: bool, w: World, step: Step)
    ensures Advance(gop, w, step).source ==
            match step
            case Register(o) => AfterRegister(gop, w.source, o)
            case Deregister(o) => AfterDeregister(gop, w.source, o)
            case Check => if gop then AfterCheck(w.source) else w.source
            case Publish(p) => AfterPublish(gop, w.source, p)
  {
    if step.Check? {
      JoinsAreJoins(w, w.source.newObservers);
    }
  }

  // ----- what every step keeps -----

  ghost predicate NoDuplicates(os: seq<Observer>) {
    forall i, j :: 0 <= i < j < |os| ==> os[i] != os[j]
  }

  /** The part of the history a session should have seen so far. */
  function Expected(gop: bool, h: seq<MediaPacket>, se: Session): seq<MediaPacket>
    requires se.at <= |h|
  {
    h[if gop then GopStart(h[..se.at]) else se.at..]
  }

  /** An active observer has received, since it became active, exactly a contiguous suffix of
      the history; unless the cache was replayed to it, and then it has received too much. */
  ghost predicate SessionOk(gop: bool, w: World, o: Observer) {
    && o in w.sessions && w.sessions[o].at <= |w.history|
    && var se := w.sessions[o];
       var r := Received(w.source.delivered, o);
       && se.before <= |r|
       && (!se.replayed ==> r[se.before..] == Expected(gop, w.history, se))
       && (se.replayed ==> |r| - se.before > |Expected(gop, w.history, se)|)
  }

  ghost predicate SessionsOk(gop: bool, w: World) {
    forall o :: o in w.source.observers ==> SessionOk(gop, w, o)
  }

  ghost predicate CacheOk(gop: bool, w: World) {
    w.source.cache == if gop then w.history[GopStart(w.history)..] else []
  }

  ghost predicate Inv(gop: bool, w: World) {
    && NoDuplicates(w.source.observers) && NoDuplicates(w.source.newObservers)
    && CacheOk(gop, w) && SessionsOk(gop, w)
  }

  // ----- publishing -----

  lemma {:induction false} DeliveredOnce(d: Deliveries, os: seq<Observer>, p: MediaPacket, o: Observer)
    requires NoDuplicates(os)
    ensures Received(DeliverAll(d, os, p), o) == Received(d, o) + (if o in os then [p] else [])
    decreases |os|
  {
    if os != [] {
      var front, last := os[..|os| - 1], os[|os| - 1];
      DeliveredOnce(d, front, p, o);
      assert o in os <==> o in front || o == last;
      assert last !in front;
    }
  }

  lemma CacheGrows(w: World, p: MediaPacket)
    requires CacheOk(true, w)
    ensures AfterAdd(w.source.cache, p) == (w.history + [p])[GopStart(w.history + [p])..]
  {
    var h := w.history + [p];
    assert h[..|h| - 1] == w.history;
  }

  lemma ExpectedGrows(gop: bool, h: seq<MediaPacket>, p: MediaPacket, se: Session)
    requires se.at <= |h|
    ensures Expected(gop, h + [p], se) == Expected(gop, h, se) + [p]
  {
    assert (h + [p])[..se.at] == h[..se.at];
  }

  lemma PublishKeepsSession(gop: bool, w: World, p: MediaPacket, o: Observer)
    requires NoDuplicates(w.source.observers) && o in w.source.observers && SessionOk(gop, w, o)
    ensures SessionOk(gop, Advance(gop, w, Publish(p)), o)
  {
    hide Expected;
    var se, r := w.sessions[o], Received(w.source.delivered, o);
    DeliveredOnce(w.source.delivered, w.source.observers, p, o);
    ExpectedGrows(gop, w.history, p, se);
    assert (r + [p])[se.before..] == r[se.before..] + [p];
  }

  lemma PublishKeeps(gop: bool, w: World, p: MediaPacket)
    requires Inv(gop, w)
    ensures Inv(gop, Advance(gop, w, Publish(p)))
  {
    hide SessionOk;
    if gop {
      CacheGrows(w, p);
    }
    forall o | o in w.source.observers
      ensures SessionOk(gop, Advance(gop, w, Publish(p)), o)
    {
      PublishKeepsSession(gop, w, p, o);
    }
  }

  // ----- joining -----

  lemma WithObserverKeeps(os: seq<Observer>, o: Observer)
    requires NoDuplicates(os)
    ensures NoDuplicates(WithObserver(os, o))
    ensures forall x :: x in WithObserver(os, o) <==> x in os || x == o
  {
  }

  lemma JoinKeepsSession(w: World, o: Observer)
    requires CacheOk(true, w) && (o in w.source.observers ==> SessionOk(true, w, o))
    ensures SessionOk(true, JoinOf(w, o), o)
  {
    var r, cache := Received(w.source.delivered, o), w.source.cache;
    var w' := JoinOf(w, o);
    assert Received(w'.source.delivered, o) == r + cache;
    if o in w.source.observers {
      if cache == [] {
        assert r + cache == r;
      }
    } else {
      assert (r + cache)[|r|..] == cache;
      assert w.history[..|w.history|] == w.history;
    }
  }

  lemma JoinKeeps(w: World, o: Observer)
    requires NoDuplicates(w.source.observers) && CacheOk(true, w) && SessionsOk(true, w)
    ensures var w' := JoinOf(w, o);
            && NoDuplicates(w'.source.observers) && CacheOk(true, w') && SessionsOk(true, w')
            && w'.history == w.history && w'.source.newObservers == w.source.newObservers
  {
    hide Expected, GopStart, SessionOk;
    WithObserverKeeps(w.source.observers, o);
    JoinKeepsSession(w, o);
    var w' := JoinOf(w, o);
    forall x | x in w'.source.observers
      ensures SessionOk(true, w', x)
    {
      if x != o {
        JoinKeepsOther(w, o, x);
      }
    }
  }

  lemma JoinKeepsOther(w: World, o: Observer, x: Observer)
    requires x != o && SessionOk(true, w, x)
    ensures SessionOk(true, JoinOf(w, o), x)
  {
    hide Expected, GopStart;
  }

  lemma {:induction false} JoinsKeep(w: World, os: seq<Observer>)
    requires NoDuplicates(w.source.observers) && CacheOk(true, w) && SessionsOk(true, w)
    ensures var w' := Joins(w, os);
            && NoDuplicates(w'.source.observers) && CacheOk(true, w') && SessionsOk(true, w')
            && w'.history == w.history && w'.source.newObservers == w.source.newObservers
            && w'.source == AfterJoins(w.source, os)
    decreases |os|
  {
    if os != [] {
      JoinsKeep(w, os[..|os| - 1]);
      JoinKeeps(Joins(w, os[..|os| - 1]), os[|os| - 1]);
    }
  }

  lemma CheckKeeps(gop: bool, w: World)
    requires Inv(gop, w)
    ensures Inv(gop, Advance(gop, w, Check))
  {
    if gop {
      JoinsKeep(w, w.source.newObservers);
      var w' := Joins(w, w.source.newObservers);
      var w2 := Advance(gop, w, Check);
      forall o | o in w2.source.observers
        ensures SessionOk(gop, w2, o)
      {
        assert SessionOk(gop, w', o);
      }
    }
  }

  // ----- registering and leaving -----

  lemma {:induction false} WithoutKeeps(os: seq<Observer>, o: Observer)
    requires NoDuplicates(os)
    ensures NoDuplicates(Without(os, o))
    ensures forall x :: x in Without(os, o) <==> x in os && x != o
    decreases |os|
  {
    if os != [] {
      WithoutKeeps(os[1..], o);
      assert os == [os[0]] + os[1..];
      assert os[0] !in os[1..];
      if os[0] != o {
        ConsNoDuplicates(os[0], Without(os[1..], o));
      }
    }
  }

  lemma ConsNoDuplicates(x: Observer, os: seq<Observer>)
    requires x !in os && NoDuplicates(os)
    ensures NoDuplicates([x] + os)
  {
  }

  lemma RegisterKeeps(gop: bool, w: World, o: Observer)
    requires Inv(gop, w)
    ensures Inv(gop, Advance(gop, w, Register(o)))
  {
    WithObserverKeeps(w.source.newObservers, o);
    WithObserverKeeps(w.source.observers, o);
    var w' := Advance(gop, w, Register(o));
    forall x | x in w'.source.observers
      ensures SessionOk(gop, w', x)
    {
      if x in w.source.observers {
        assert SessionOk(gop, w, x);
      }
    }
  }

  lemma DeregisterKeeps(gop: bool, w: World, o: Observer)
    requires Inv(gop, w)
    ensures Inv(gop, Advance(gop, w, Deregister(o)))
    ensures o !in Advance(gop, w, Deregister(o)).source.observers
  {
    WithoutKeeps(w.source.newObservers, o);
    WithoutKeeps(w.source.observers, o);
    var w' := Advance(gop, w, Deregister(o));
    forall x | x in w'.source.observers
      ensures SessionOk(gop, w', x)
    {
      assert SessionOk(gop, w, x);
    }
  }

  lemma StepKeeps(gop: bool, w: World, step: Step)
    requires Inv(gop, w)
    ensures Inv(gop, Advance(gop, w, step))
  {
    match step
    case Register(o) => RegisterKeeps(gop, w, o);
    case Deregister(o) => DeregisterKeeps(gop, w, o);
    case Check => CheckKeeps(gop, w);
    case Publish(p) => PublishKeeps(gop, w, p);
  }

  lemma {:induction false} RunKeeps(gop: bool, steps: seq<Step>)
    ensures Inv(gop, Run(gop, steps))
    decreases |steps|
  {
    if steps != [] {
      RunKeeps(gop, steps[..|steps| - 1]);
      StepKeeps(gop, Run(gop, steps[..|steps| - 1]), steps[|steps| - 1]);
    }
  }

  // ----- when an observer joined -----

  ghost predicate Active(gop: bool, steps: seq<Step>, o: Observer) {
    o in Run(gop, steps).source.observers
  }

  /** The step at which an active observer became active last. */
  ghost function JoinedAt(gop: bool, steps: seq<Step>, o: Observer): (i: nat)
    requires Active(gop, steps, o)
    ensures i < |steps|
    decreases |steps|
  {
    var front := steps[..|steps| - 1];
    if Active(gop, front, o) then JoinedAt(gop, front, o) else |front|
  }

  /** The source as it was right before the step at which an active observer joined. */
  ghost function JoinWorld(gop: bool, steps: seq<Step>, o: Observer): World
    requires Active(gop, steps, o)
  {
    Run(gop, steps[..JoinedAt(gop, steps, o)])
  }

  /** It was not active before that step, and has been since. */
  lemma {:induction false} JoinedOnce(gop: bool, steps: seq<Step>, o: Observer)
    requires Active(gop, steps, o)
    ensures var i := JoinedAt(gop, steps, o);
            && !Active(gop, steps[..i], o)
            && forall k :: i < k <= |steps| ==> Active(gop, steps[..k], o)
    decreases |steps|
  {
    hide Run, Advance;
    EmptyRun(gop);
    var last := |steps| - 1;
    var front := steps[..last];
    assert steps[..|steps|] == steps;
    if Active(gop, front, o) {
      JoinedOnce(gop, front, o);
      assert forall k :: 0 <= k <= last ==> front[..k] == steps[..k];
    }
  }

  lemma EmptyRun(gop: bool)
    ensures Run(gop, []) == INITIAL
  {
  }

  /** A list of joins: who is active then, and what the sessions are. */
  lemma {:induction false} JoinsSession(w: World, os: seq<Observer>, o: Observer)
    requires NoDuplicates(os) && (o in w.source.observers ==> o in w.sessions)
    ensures var w' := Joins(w, os);
            && (o in w'.source.observers <==> o in w.source.observers || o in os)
            && w'.source.cache == w.source.cache && w'.history == w.history
            && (o !in os ==> Received(w'.source.delivered, o) == Received(w.source.delivered, o))
            && (o in w'.source.observers ==> o in w'.sessions)
    ensures var w' := Joins(w, os);
            o in w'.source.observers ==>
              w'.sessions[o] ==
                if o !in w.source.observers then Session(|Received(w.source.delivered, o)|, |w.history|, false)
                else w.sessions[o].(replayed := w.sessions[o].replayed || (o in os && w.source.cache != []))
    decreases |os|
  {
    if os != [] {
      var front, last := os[..|os| - 1], os[|os| - 1];
      JoinsSession(w, front, o);
      assert os == front + [last] && last !in front;
    }
  }

  /** At this step the cache is handed to o, which is active already. */
  ghost predicate Replays(gop: bool, w: World, step: Step, o: Observer) {
    gop && step.Check? && o in w.source.newObservers && w.source.cache != []
  }

  /** One step: a session starts when its observer becomes active, and only a replay marks it. */
  lemma StepOfSession(gop: bool, w: World, step: Step, o: Observer)
    requires Inv(gop, w) && o in Advance(gop, w, step).source.observers
    ensures var w' := Advance(gop, w, step);
            && o in w'.sessions
            && (o in w.source.observers ==> o in w.sessions)
            && w'.sessions[o] ==
                 if o !in w.source.observers then Session(|Received(w.source.delivered, o)|, |w.history|, false)
                 else w.sessions[o].(replayed := w.sessions[o].replayed || Replays(gop, w, step, o))
  {
    hide Expected, GopStart;
    assert o in w.source.observers ==> SessionOk(gop, w, o);
    match step
    case Register(x) =>
      WithObserverKeeps(w.source.observers, x);
    case Deregister(x) =>
      WithoutKeeps(w.source.observers, x);
    case Check =>
      JoinsSession(w, w.source.newObservers, o);
    case Publish(p) =>
  }

  /** The cache was handed to o again after it had joined. */
  ghost predicate Replayed(gop: bool, steps: seq<Step>, o: Observer)
    requires Active(gop, steps, o)
  {
    exists k :: JoinedAt(gop, steps, o) < k < |steps| && Replays(gop, Run(gop, steps[..k]), steps[k], o)
  }

  lemma ReplayedSoFar(gop: bool, steps: seq<Step>, o: Observer)
    requires steps != [] && Active(gop, steps, o)
    ensures var last := |steps| - 1;
            var front := steps[..last];
            Replayed(gop, steps, o) <==>
              Active(gop, front, o) && (Replayed(gop, front, o) || Replays(gop, Run(gop, front), steps[last], o))
  {
    hide Run, Replays;
    var last := |steps| - 1;
    var front := steps[..last];
    assert forall k :: 0 <= k <= last ==> front[..k] == steps[..k];
    if Active(gop, front, o) {
      assert JoinedAt(gop, front, o) == JoinedAt(gop, steps, o);
      if Replayed(gop, steps, o) {
        var k :| JoinedAt(gop, steps, o) < k < |steps| && Replays(gop, Run(gop, steps[..k]), steps[k], o);
        assert k < last ==> Replays(gop, Run(gop, front[..k]), front[k], o);
      }
      if Replayed(gop, front, o) {
        var k :| JoinedAt(gop, front, o) < k < last && Replays(gop, Run(gop, front[..k]), front[k], o);
        assert Replays(gop, Run(gop, steps[..k]), steps[k], o);
      }
      if Replays(gop, Run(gop, front), steps[last], o) {
        assert Replays(gop, Run(gop, steps[..last]), steps[last], o);
      }
    }
  }

  /** An active observer's session records when it joined, what it had received by then, and
      whether the cache was replayed since. */
  lemma {:induction false} SessionIsCurrent(gop: bool, steps: seq<Step>, o: Observer)
    requires Active(gop, steps, o)
    ensures var w, joined := Run(gop, steps), JoinWorld(gop, steps, o);
            && o in w.sessions
            && w.sessions[o].at == |joined.history|
            && w.sessions[o].before == |Received(joined.source.delivered, o)|
            && (w.sessions[o].replayed <==> Replayed(gop, steps, o))
    decreases |steps|
  {
    hide Advance, Inv, Replays, Replayed;
    EmptyRun(gop);
    var last := |steps| - 1;
    var front := steps[..last];
    var i := JoinedAt(gop, steps, o);
    RunKeeps(gop, front);
    StepOfSession(gop, Run(gop, front), steps[last], o);
    ReplayedSoFar(gop, steps, o);
    if Active(gop, front, o) {
      SessionIsCurrent(gop, front, o);
      assert front[..i] == steps[..i];
    }
  }

  /** Where the history an active observer is to receive starts: at the group of pictures
      current when it joined, or without the cache at its joining. */
  ghost function StartOf(gop: bool, steps: seq<Step>, o: Observer): nat
    requires Active(gop, steps, o)
  {
    var h := JoinWorld(gop, steps, o).history;
    if gop then GopStart(h) else |h|
  }

  ghost predicate InSync(gop: bool, steps: seq<Step>, o: Observer)
    requires Active(gop, steps, o)
  {
    var w := Run(gop, steps);
    var had := |Received(JoinWorld(gop, steps, o).source.delivered, o)|;
    var start := StartOf(gop, steps, o);
    && start <= |w.history| && had <= |Received(w.source.delivered, o)|
    && Received(w.source.delivered, o)[had..] == w.history[start..]
  }

  lemma {:induction false} HistoryGrows(gop: bool, steps: seq<Step>, i: nat)
    requires i <= |steps|
    ensures Run(gop, steps[..i]).history <= Run(gop, steps).history
    decreases |steps|
  {
    if i == |steps| {
      assert steps[..i] == steps;
    } else {
      var last := |steps| - 1;
      HistoryGrows(gop, steps[..last], i);
      assert steps[..last][..i] == steps[..i];
      StepHistory(gop, Run(gop, steps[..last]), steps[last]);
    }
  }

  lemma StepHistory(gop: bool, w: World, step: Step)
    ensures w.history <= Advance(gop, w, step).history
  {
    if step.Check? {
      JoinsHistory(w, w.source.newObservers);
    }
  }

  lemma {:induction false} JoinsHistory(w: World, os: seq<Observer>)
    ensures Joins(w, os).history == w.history
    decreases |os|
  {
    if os != [] {
      JoinsHistory(w, os[..|os| - 1]);
    }
  }

  /** Fan-out safety: over every interleaving, the cache is the current group of pictures, and
      an active observer has received since it joined exactly the history from the group of
      pictures it joined in (without the cache: from its joining) - no gap, no duplicate, no
      reordering - if and only if the cache was not handed to it again meanwhile. */
  lemma ActiveObserversInSync(gop: bool, steps: seq<Step>, o: Observer)
    requires Active(gop, steps, o)
    ensures var w := Run(gop, steps); gop ==> w.source.cache == w.history[GopStart(w.history)..]
    ensures InSync(gop, steps, o) <==> !Replayed(gop, steps, o)
  {
    hide Advance, GopStart, Replayed;
    var w, i := Run(gop, steps), JoinedAt(gop, steps, o);
    RunKeeps(gop, steps);
    SessionIsCurrent(gop, steps, o);
    HistoryGrows(gop, steps, i);
    assert SessionOk(gop, w, o);
    assert w.history[..|Run(gop, steps[..i]).history|] == Run(gop, steps[..i]).history;
  }

  // ----- when the cache is replayed -----

  /** A caller that never registers an observer that is active. */
  ghost predicate Careful(gop: bool, steps: seq<Step>) {
    forall i :: 0 <= i < |steps| && steps[i].Register? ==> steps[i].o !in Run(gop, steps[..i]).source.observers
  }

  ghost predicate NoReplay(w: World) {
    && (forall o :: o in w.source.newObservers ==> o !in w.source.observers)
    && (forall o :: o in w.source.observers ==> o in w.sessions && !w.sessions[o].replayed)
  }

  lemma {:induction false} JoinsWithoutReplay(w: World, os: seq<Observer>)
    requires NoDuplicates(os) && forall o :: o in os ==> o !in w.source.observers
    requires forall o :: o in w.source.observers ==> o in w.sessions && !w.sessions[o].replayed
    ensures var w' := Joins(w, os);
            && (forall o :: o in w'.source.observers <==> o in w.source.observers || o in os)
            && (forall o :: o in w'.source.observers ==> o in w'.sessions && !w'.sessions[o].replayed)
    decreases |os|
  {
    if os != [] {
      var front, last := os[..|os| - 1], os[|os| - 1];
      assert os == front + [last] && last !in front;
      JoinsWithoutReplay(w, front);
    }
  }

  lemma StepWithoutReplay(gop: bool, w: World, step: Step)
    requires Inv(gop, w) && NoReplay(w) && (step.Register? ==> step.o !in w.source.observers)
    requires !gop ==> w.source.newObservers == []
    ensures var w' := Advance(gop, w, step); NoReplay(w') && (!gop ==> w'.source.newObservers == [])
  {
    match step
    case Register(o) =>
      WithObserverKeeps(w.source.newObservers, o);
      WithObserverKeeps(w.source.observers, o);
    case Deregister(o) =>
      WithoutKeeps(w.source.newObservers, o);
      WithoutKeeps(w.source.observers, o);
    case Check =>
      JoinsWithoutReplay(w, w.source.newObservers);
    case Publish(p) =>
  }

  lemma {:induction false} CarefulRunHasNoReplay(gop: bool, steps: seq<Step>)
    requires Careful(gop, steps)
    ensures NoReplay(Run(gop, steps)) && (!gop ==> Run(gop, steps).source.newObservers == [])
    decreases |steps|
  {
    if steps != [] {
      var last := |steps| - 1;
      var front := steps[..last];
      forall i | 0 <= i < |front| && front[i].Register?
        ensures front[i].o !in Run(gop, front[..i]).source.observers
      {
        assert front[..i] == steps[..i] && front[i] == steps[i];
      }
      CarefulRunHasNoReplay(gop, front);
      RunKeeps(gop, front);
      StepWithoutReplay(gop, Run(gop, front), steps[last]);
    }
  }

  /** With careful callers every active observer is in sync, over every interleaving. */
  lemma CarefulObserversInSync(gop: bool, steps: seq<Step>, o: Observer)
    requires Careful(gop, steps) && Active(gop, steps, o)
    ensures InSync(gop, steps, o)
  {
    hide Run, InSync, Replayed;
    CarefulRunHasNoReplay(gop, steps);
    SessionIsCurrent(gop, steps, o);
    ActiveObserversInSync(gop, steps, o);
  }

  // ----- who is in the lists -----

  ghost predicate Present(w: World, o: Observer) {
    o in w.source.observers || o in w.source.newObservers
  }

  /** The last thing o did was to register. */
  ghost predicate Wants(steps: seq<Step>, o: Observer) {
    exists k :: 0 <= k < |steps| && steps[k] == Register(o)
                && forall j :: k < j < |steps| ==> steps[j] != Deregister(o)
  }

  lemma StepOfPresence(gop: bool, w: World, step: Step, o: Observer)
    requires Inv(gop, w) && (!gop ==> w.source.newObservers == [])
    ensures var w' := Advance(gop, w, step);
            && (Present(w', o) <==> step == Register(o) || (Present(w, o) && step != Deregister(o)))
            && (!gop ==> w'.source.newObservers == [])
            && (step.Check? ==> o !in w'.source.newObservers)
  {
    match step
    case Register(x) =>
      WithObserverKeeps(w.source.observers, x);
      WithObserverKeeps(w.source.newObservers, x);
    case Deregister(x) =>
      WithoutKeeps(w.source.observers, x);
      WithoutKeeps(w.source.newObservers, x);
    case Check =>
      assert forall x :: x in w.source.observers ==> SessionOk(gop, w, x);
      JoinsSession(w, w.source.newObservers, o);
    case Publish(p) =>
  }

  lemma StepOfWants(steps: seq<Step>, o: Observer)
    requires steps != []
    ensures var last := |steps| - 1;
            Wants(steps, o) <==> steps[last] == Register(o) || (Wants(steps[..last], o) && steps[last] != Deregister(o))
  {
    var last := |steps| - 1;
    var front := steps[..last];
    if steps[last] == Register(o) {
      assert Wants(steps, o);
    } else {
      if Wants(steps, o) {
        var k :| 0 <= k < |steps| && steps[k] == Register(o)
                 && forall j :: k < j < |steps| ==> steps[j] != Deregister(o);
        assert front[k] == Register(o) && forall j :: k < j < last ==> front[j] == steps[j];
      }
      if Wants(front, o) && steps[last] != Deregister(o) {
        var k :| 0 <= k < last && front[k] == Register(o) && forall j :: k < j < last ==> front[j] != Deregister(o);
        assert steps[k] == Register(o) && forall j :: k < j < last ==> steps[j] == front[j];
      }
    }
  }

  /** Over every run: an observer is in one of the lists if and only if the last thing it did was
      to register. The waiting list is not used without the cache. */
  lemma {:induction false} PresentIffRegistered(gop: bool, steps: seq<Step>, o: Observer)
    ensures Present(Run(gop, steps), o) <==> Wants(steps, o)
    ensures !gop ==> Run(gop, steps).source.newObservers == []
    decreases |steps|
  {
    hide Advance, Present, Wants, Inv;
    if steps == [] {
      NobodyPresent(gop, o);
    } else {
      var front := steps[..|steps| - 1];
      PresentIffRegistered(gop, front, o);
      RunKeeps(gop, front);
      StepOfPresence(gop, Run(gop, front), steps[|steps| - 1], o);
      StepOfWants(steps, o);
    }
  }

  lemma NobodyPresent(gop: bool, o: Observer)
    ensures !Present(Run(gop, []), o) && !Wants([], o) && Run(gop, []).source.newObservers == []
  {
  }

  /** Who is registered is active: without the cache always, with it right after a check. */
  lemma ActiveIffRegistered(gop: bool, steps: seq<Step>, o: Observer)
    requires !gop || (steps != [] && steps[|steps| - 1] == Check)
    ensures Active(gop, steps, o) <==> Wants(steps, o)
  {
    hide Advance, Wants, Inv;
    PresentIffRegistered(gop, steps, o);
    if gop {
      var front := steps[..|steps| - 1];
      RunKeeps(gop, front);
      PresentIffRegistered(gop, front, o);
      StepOfPresence(gop, Run(gop, front), Check, o);
    }
  }

  /** An observer that is not active, and does not become so, receives nothing in a step. */
  lemma InactiveReceivesNothing(gop: bool, steps: seq<Step>, step: Step, o: Observer)
    requires !Active(gop, steps, o) && !Active(gop, steps + [step], o)
    ensures Received(Run(gop, steps + [step]).source.delivered, o) == Received(Run(gop, steps).source.delivered, o)
  {
    OneMore(gop, steps, step);
    var w := Run(gop, steps);
    RunKeeps(gop, steps);
    match step
    case Register(x) =>
    case Deregister(x) =>
    case Check => JoinsSession(w, w.source.newObservers, o);
    case Publish(p) => DeliveredOnce(w.source.delivered, w.source.observers, p, o);
  }

  // ----- observers registered once -----

  function Registrations(steps: seq<Step>, o: Observer): nat {
    if steps == [] then 0
    else Registrations(steps[..|steps| - 1], o) + if steps[|steps| - 1] == Register(o) then 1 else 0
  }

  lemma {:induction false} RegistrationsGrow(steps: seq<Step>, i: nat, o: Observer)
    requires i <= |steps|
    ensures Registrations(steps[..i], o) <= Registrations(steps, o)
    decreases |steps|
  {
    if i == |steps| {
      assert steps[..i] == steps;
    } else {
      RegistrationsGrow(steps[..|steps| - 1], i, o);
      assert steps[..|steps| - 1][..i] == steps[..i];
    }
  }

  /** Unknown to the source, which has handed it nothing. */
  ghost predicate Unknown(w: World, o: Observer) {
    o !in w.source.observers && o !in w.source.newObservers && Received(w.source.delivered, o) == []
  }

  /** Waiting with nothing received, or active since its first joining, or gone. */
  ghost predicate FirstTime(w: World, o: Observer) {
    && (o in w.source.newObservers ==> o !in w.source.observers && Received(w.source.delivered, o) == [])
    && (o in w.source.observers ==> o in w.sessions && w.sessions[o].before == 0 && !w.sessions[o].replayed)
  }

  lemma UnknownStays(gop: bool, w: World, step: Step, o: Observer)
    requires Inv(gop, w) && Unknown(w, o) && step != Register(o)
    ensures Unknown(Advance(gop, w, step), o)
  {
    match step
    case Register(x) =>
      WithObserverKeeps(w.source.observers, x);
      WithObserverKeeps(w.source.newObservers, x);
    case Deregister(x) =>
      WithoutKeeps(w.source.observers, x);
      WithoutKeeps(w.source.newObservers, x);
    case Check =>
      JoinsSession(w, w.source.newObservers, o);
    case Publish(p) =>
      DeliveredOnce(w.source.delivered, w.source.observers, p, o);
  }

  lemma FirstRegistration(gop: bool, w: World, o: Observer)
    requires Unknown(w, o)
    ensures FirstTime(Advance(gop, w, Register(o)), o)
  {
  }

  lemma FirstTimeStays(gop: bool, w: World, step: Step, o: Observer)
    requires Inv(gop, w) && FirstTime(w, o) && step != Register(o)
    ensures FirstTime(Advance(gop, w, step), o)
  {
    match step
    case Register(x) =>
      WithObserverKeeps(w.source.observers, x);
      WithObserverKeeps(w.source.newObservers, x);
    case Deregister(x) =>
      WithoutKeeps(w.source.observers, x);
      WithoutKeeps(w.source.newObservers, x);
    case Check =>
      JoinsSession(w, w.source.newObservers, o);
    case Publish(p) =>
      DeliveredOnce(w.source.delivered, w.source.observers, p, o);
  }

  lemma {:induction false} RegisteredAtMostOnce(gop: bool, steps: seq<Step>, o: Observer)
    requires Registrations(steps, o) <= 1
    ensures if Registrations(steps, o) == 0 then Unknown(Run(gop, steps), o) else FirstTime(Run(gop, steps), o)
    decreases |steps|
  {
    hide Unknown, FirstTime, Advance, Inv;
    if steps == [] {
      EmptyRun(gop);
      InitiallyUnknown(o);
    } else {
      var front, last := steps[..|steps| - 1], steps[|steps| - 1];
      RegisteredAtMostOnce(gop, front, o);
      RunKeeps(gop, front);
      var w := Run(gop, front);
      if last == Register(o) {
        FirstRegistration(gop, w, o);
      } else if Registrations(front, o) == 0 {
        UnknownStays(gop, w, last, o);
      } else {
        FirstTimeStays(gop, w, last, o);
      }
    }
  }

  lemma InitiallyUnknown(o: Observer)
    ensures Unknown(INITIAL, o)
  {
  }

  /** Over every interleaving: an active observer that was registered once has received, in all,
      exactly the history from the start of the group of pictures it joined in, or without the
      cache from its joining. */
  lemma RegisteredOnceInSync(gop: bool, steps: seq<Step>, o: Observer)
    requires Registrations(steps, o) <= 1 && Active(gop, steps, o)
    ensures var w, start := Run(gop, steps), StartOf(gop, steps, o);
            start <= |w.history| && Received(w.source.delivered, o) == w.history[start..]
  {
    hide Run, Replayed, Advance;
    RegisteredAtMostOnce(gop, steps, o);
    SessionIsCurrent(gop, steps, o);
    ActiveObserversInSync(gop, steps, o);
    var r := Received(Run(gop, steps).source.delivered, o);
    assert r[0..] == r;
  }

  /** Registering every observer once, as the signalling does, is careful. */
  lemma OnceIsCareful(gop: bool, steps: seq<Step>)
    requires forall o :: Registrations(steps, o) <= 1
    ensures Careful(gop, steps)
  {
    hide Run;
    forall i | 0 <= i < |steps| && steps[i].Register?
      ensures steps[i].o !in Run(gop, steps[..i]).source.observers
    {
      var o := steps[i].o;
      RegistrationsGrow(steps, i + 1, o);
      assert steps[..i + 1][..i] == steps[..i];
      RegisteredAtMostOnce(gop, steps[..i], o);
    }
  }

  // ----- what a second registration does -----

  lemma OneJoin(w: World, o: Observer)
    ensures Joins(w, [o]) == JoinOf(w, o)
  {
    var os := [o];
    assert os[..|os| - 1] == [] && os[|os| - 1] == o;
  }

  /** Without that care it fails: an active observer that registers again is handed the whole
      cache once more, after packets it already had. */
  lemma ReplayDuplicates(w: World, o: Observer)
    requires Inv(true, w) && o in w.source.observers && w.source.newObservers == []
    ensures var w' := Advance(true, Advance(true, w, Register(o)), Check);
            && o in w'.source.observers && w'.history == w.history
            && Received(w'.source.delivered, o) == Received(w.source.delivered, o) + w.source.cache
  {
    var w1 := Advance(true, w, Register(o));
    assert w1.source.newObservers == [o];
    OneJoin(w1, o);
  }

  lemma OneMore(gop: bool, steps: seq<Step>, step: Step)
    ensures Run(gop, steps + [step]) == Advance(gop, Run(gop, steps), step)
  {
    assert (steps + [step])[..|steps|] == steps;
  }

  lemma FirstJoin(o: Observer)
    ensures Advance(true, Advance(true, INITIAL, Register(o)), Check)
            == World(SourceState([o], [], [], map[o := []]), [], map[o := Session(0, 0, false)])
  {
    OneJoin(Advance(true, INITIAL, Register(o)), o);
  }

  lemma FirstPublish(o: Observer, p: MediaPacket)
    ensures var w := World(SourceState([o], [], [], map[o := []]), [], map[o := Session(0, 0, false)]);
            var w' := Advance(true, w, Publish(p));
            && w'.history == [p] && w'.source.cache == [p] && w'.source.observers == [o]
            && w'.source.newObservers == [] && Received(w'.source.delivered, o) == [p]
  {
    var d: Deliveries := map[o := []];
    DeliveredOnce(d, [o], p, o);
    assert Received(d, o) == [];
  }

  /** The shortest run that shows it: join, publish one packet, register again, join again. */
  lemma ReplayHappens(p: MediaPacket, o: Observer)
    ensures var w := Run(true, [Register(o), Check, Publish(p)] + [Register(o)] + [Check]);
            w.history == [p] && Received(w.source.delivered, o) == [p, p]
  {
    hide Run, Advance;
    var front := [Register(o), Check, Publish(p)];
    OneMore(true, [], Register(o));
    OneMore(true, [Register(o)], Check);
    OneMore(true, [Register(o), Check], Publish(p));
    assert [] + [Register(o)] == [Register(o)] && [Register(o)] + [Check] == [Register(o), Check];
    assert [Register(o), Check] + [Publish(p)] == front;
    EmptyRun(true);
    FirstJoin(o);
    FirstPublish(o, p);
    RunKeeps(true, front);
    ReplayDuplicates(Run(true, front), o);
    OneMore(true, front, Register(o));
    OneMore(true, front + [Register(o)], Check);
  }

}
