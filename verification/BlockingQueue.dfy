/** The bounded blocking queue of src/Common/BlockingQueue.h as a monitor under every interleaving. */
module BlockingQueue {
  import opened Words

  type Tid = nat

  /** What an operation did, logged at the instant its critical section decided it. */
  datatype Event<T> =
    | Pushed(t: Tid, v: T)
    | Refused(t: Tid, v: T)
    | Popped(t: Tid, v: T)
    | Drained(t: Tid)
    | Closed(t: Tid)
    | CloseReturned(t: Tid)

  /**
    The monitor: queue and flag, the threads asleep on each condition variable, and the threads that were woken
    and are on their way back to the mutex.  m_haveSpace is shared by pushers and by callers of close(true).
   */
  datatype State<T> = State(
    cap: nat,
    queue: seq<T>,
    closed: bool,
    pushAsleep: map<Tid, T>,
    pushWoken: map<Tid, T>,
    popAsleep: set<Tid>,
    popWoken: set<Tid>,
    closeAsleep: set<Tid>,
    closeWoken: set<Tid>,
    history: seq<Event<T>>
  )

  function Init<T>(cap: nat): State<T>
  {
    State(cap, [], false, map[], map[], {}, {}, {}, {}, [])
  }

  // ----- condition variables -----

  /** notify_one on m_haveData; `pick` is the scheduler's choice among the sleepers. */
  function NotifyOneData<T>(s: State<T>, pick: Tid): State<T>
  {
    if pick in s.popAsleep then s.(popAsleep := s.popAsleep - {pick}, popWoken := s.popWoken + {pick}) else s
  }

  predicate MayPickData<T>(s: State<T>, pick: Tid)
  {
    s.popAsleep == {} || pick in s.popAsleep
  }

  function NotifyOneSpace<T>(s: State<T>, pick: Tid): State<T>
  {
    if pick in s.pushAsleep then
      s.(pushAsleep := s.pushAsleep - {pick}, pushWoken := s.pushWoken[pick := s.pushAsleep[pick]])
    else if pick in s.closeAsleep then
      s.(closeAsleep := s.closeAsleep - {pick}, closeWoken := s.closeWoken + {pick})
    else s
  }

  predicate MayPickSpace<T>(s: State<T>, pick: Tid)
  {
    (s.pushAsleep == map[] && s.closeAsleep == {}) || pick in s.pushAsleep || pick in s.closeAsleep
  }

  function NotifyAllData<T>(s: State<T>): State<T>
  {
    s.(popAsleep := {}, popWoken := s.popWoken + s.popAsleep)
  }

  function NotifyAllSpace<T>(s: State<T>): State<T>
  {
    s.(pushAsleep := map[], pushWoken := s.pushWoken + s.pushAsleep,
       closeAsleep := {}, closeWoken := s.closeWoken + s.closeAsleep)
  }

  function Log<T>(s: State<T>, e: Event<T>): State<T>
  {
    s.(history := s.history + [e])
  }

  // ----- critical sections: from taking the mutex to giving it up, by return or by wait -----

  function PushSection<T>(s: State<T>, t: Tid, v: T, pick: Tid): State<T>
  {
    if !s.closed && |s.queue| >= s.cap then s.(pushAsleep := s.pushAsleep[t := v])
    else if s.closed then Log(s, Refused(t, v))
    else NotifyOneData(Log(s.(queue := s.queue + [v]), Pushed(t, v)), pick)
  }

  function PopSection<T>(s: State<T>, t: Tid, pick: Tid): State<T>
  {
    if s.queue == [] then
      if s.closed then Log(s, Drained(t)) else s.(popAsleep := s.popAsleep + {t})
    else
      var s1 := Log(s.(queue := s.queue[1..]), Popped(t, s.queue[0]));
      if s1.closed && s1.queue == [] then NotifyAllSpace(s1) else NotifyOneSpace(s1, pick)
  }

  /** The loop of close(true), first entered right after the notifications. */
  function CloseWaitSection<T>(s: State<T>, t: Tid): State<T>
  {
    if s.queue != [] then s.(closeAsleep := s.closeAsleep + {t}) else Log(s, CloseReturned(t))
  }

  function CloseSection<T>(s: State<T>, t: Tid, wait: bool): State<T>
  {
    var s1 := NotifyAllSpace(NotifyAllData(Log(s.(closed := true), Closed(t))));
    if wait then CloseWaitSection(s1, t) else s1
  }

  // ----- runs -----

  /** One scheduling step: a fresh call, a woken thread retaking the mutex, or a spurious wake-up. */
  datatype Action<T> =
    | Push(t: Tid, v: T, pick: Tid)
    | Pop(t: Tid, pick: Tid)
    | Close(t: Tid, wait: bool)
    | ResumePush(t: Tid, pick: Tid)
    | ResumePop(t: Tid, pick: Tid)
    | ResumeClose(t: Tid)
    | Spurious(t: Tid)

  function Busy<T>(s: State<T>): set<Tid>
  {
    s.pushAsleep.Keys + s.pushWoken.Keys + s.popAsleep + s.popWoken + s.closeAsleep + s.closeWoken
  }

  predicate Enabled<T>(s: State<T>, a: Action<T>)
  {
    match a
    case Push(t, v, pick) => t !in Busy(s) && MayPickData(s, pick)
    case Pop(t, pick) => t !in Busy(s) && MayPickSpace(s, pick)
    case Close(t, wait) => t !in Busy(s)
    case ResumePush(t, pick) => t in s.pushWoken && MayPickData(s, pick)
    case ResumePop(t, pick) => t in s.popWoken && MayPickSpace(s, pick)
    case ResumeClose(t) => t in s.closeWoken
    case Spurious(t) => t in s.pushAsleep || t in s.popAsleep || t in s.closeAsleep
  }

  function Apply<T>(s: State<T>, a: Action<T>): State<T>
    requires Enabled(s, a)
  {
    match a
    case Push(t, v, pick) => PushSection(s, t, v, pick)
    case Pop(t, pick) => PopSection(s, t, pick)
    case Close(t, wait) => CloseSection(s, t, wait)
    case ResumePush(t, pick) => PushSection(s.(pushWoken := s.pushWoken - {t}), t, s.pushWoken[t], pick)
    case ResumePop(t, pick) => PopSection(s.(popWoken := s.popWoken - {t}), t, pick)
    case ResumeClose(t) => CloseWaitSection(s.(closeWoken := s.closeWoken - {t}), t)
    case Spurious(t) => if t in s.popAsleep then NotifyOneData(s, t) else NotifyOneSpace(s, t)
  }

  ghost predicate Reaches<T>(s: State<T>, actions: seq<Action<T>>, s': State<T>)
    decreases |actions|
  {
    if actions == [] then s == s'
    else Enabled(s, actions[0]) && Reaches(Apply(s, actions[0]), actions[1..], s')
  }

  // ----- no wake-up is lost -----

  /** A thread asleep on a condition variable is not also awake. */
  predicate Separate<T>(s: State<T>)
  {
    s.pushAsleep.Keys !! s.pushWoken.Keys && s.popAsleep !! s.popWoken && s.closeAsleep !! s.closeWoken
  }

  /** Sleeping poppers are outnumbered by woken ones as far as there is data, but for `spare` of it. */
  predicate DataCovered<T>(s: State<T>, spare: nat)
  {
    s.popAsleep != {} ==> |s.queue| <= |s.popWoken| + spare
  }

  /** Sleeping pushers are outnumbered by woken ones as far as there is space, but for `spare` of it. */
  predicate SpaceCovered<T>(s: State<T>, spare: nat)
  {
    s.pushAsleep.Keys != {} ==> s.cap - |s.queue| <= |s.pushWoken| + spare
  }

  /** Closing wakes everybody, and only an undrained queue keeps a closer asleep. */
  predicate ClosedAwake<T>(s: State<T>)
  {
    (s.closed ==> s.popAsleep == {} && s.pushAsleep.Keys == {}) &&
    (!s.closed ==> s.closeAsleep == {} && s.closeWoken == {}) &&
    (s.closeAsleep != {} ==> s.queue != [])
  }

  predicate Inv<T>(s: State<T>)
  {
    |s.queue| <= s.cap && Separate(s) && DataCovered(s, 0) && SpaceCovered(s, 0) && ClosedAwake(s)
  }

  lemma MapShrinks<T>(m: map<Tid, T>, t: Tid)
    requires t in m
    ensures (m - {t}).Keys == m.Keys - {t} && |m - {t}| == |m| - 1
  {
    assert (m - {t}).Keys == m.Keys - {t};
  }

  lemma MapGrows<T>(m: map<Tid, T>, t: Tid, v: T)
    requires t !in m
    ensures m[t := v].Keys == m.Keys + {t} && |m[t := v]| == |m| + 1
  {
    assert m[t := v].Keys == m.Keys + {t};
  }

  /** A notification on m_haveData pays for one more item. */
  lemma DataNotified<T>(s: State<T>, pick: Tid)
    requires Separate(s) && MayPickData(s, pick) && DataCovered(s, 1)
    ensures DataCovered(NotifyOneData(s, pick), 0) && Separate(NotifyOneData(s, pick))
    ensures NotifyOneData(s, pick).popAsleep <= s.popAsleep
  {
    if pick in s.popAsleep {
      assert |s.popWoken + {pick}| == |s.popWoken| + 1;
    }
  }

  /** A notification on m_haveSpace pays for one more free slot, as no closer sleeps beside a pusher. */
  lemma SpaceNotified<T>(s: State<T>, pick: Tid)
    requires Separate(s) && MayPickSpace(s, pick) && SpaceCovered(s, 1)
    requires s.closeAsleep == {} || s.pushAsleep.Keys == {}
    ensures SpaceCovered(NotifyOneSpace(s, pick), 0) && Separate(NotifyOneSpace(s, pick))
    ensures NotifyOneSpace(s, pick).pushAsleep.Keys <= s.pushAsleep.Keys
    ensures NotifyOneSpace(s, pick).closeAsleep <= s.closeAsleep
    ensures NotifyOneSpace(s, pick).closeWoken <= s.closeWoken + s.closeAsleep
  {
    if pick in s.pushAsleep {
      MapShrinks(s.pushAsleep, pick);
      MapGrows(s.pushWoken, pick, s.pushAsleep[pick]);
    }
  }

  lemma PushKeeps<T>(s: State<T>, t: Tid, v: T, pick: Tid)
    requires |s.queue| <= s.cap && Separate(s) && t !in s.pushWoken && MayPickData(s, pick)
    requires DataCovered(s, 0) && SpaceCovered(s, 1) && ClosedAwake(s)
    ensures Inv(PushSection(s, t, v, pick))
  {
    hide Separate, NotifyOneData;
    if !s.closed && |s.queue| >= s.cap {
      PusherSleeps(s, t, v);
    } else if s.closed {
      SeparateFrame(s, Log(s, Refused(t, v)));
    } else {
      var s1 := Log(s.(queue := s.queue + [v]), Pushed(t, v));
      SeparateFrame(s, s1);
      DataNotified(s1, pick);
      NotifyDataFrame(s1, pick);
    }
  }

  lemma SeparateFrame<T>(s: State<T>, s': State<T>)
    requires Separate(s) && s'.pushAsleep == s.pushAsleep && s'.pushWoken == s.pushWoken
    requires s'.popAsleep == s.popAsleep && s'.popWoken == s.popWoken
    requires s'.closeAsleep == s.closeAsleep && s'.closeWoken == s.closeWoken
    ensures Separate(s')
  {
  }

  lemma NotifyDataFrame<T>(s: State<T>, pick: Tid)
    ensures var s' := NotifyOneData(s, pick);
      s' == s.(popAsleep := s'.popAsleep, popWoken := s'.popWoken)
  {
  }

  lemma NotifySpaceFrame<T>(s: State<T>, pick: Tid)
    ensures var s' := NotifyOneSpace(s, pick);
      s' == s.(pushAsleep := s'.pushAsleep, pushWoken := s'.pushWoken,
               closeAsleep := s'.closeAsleep, closeWoken := s'.closeWoken)
  {
  }

  lemma PusherSleeps<T>(s: State<T>, t: Tid, v: T)
    requires Separate(s) && t !in s.pushWoken
    ensures Separate(s.(pushAsleep := s.pushAsleep[t := v]))
  {
  }

  lemma PopperSleeps<T>(s: State<T>, t: Tid)
    requires Separate(s) && t !in s.popWoken
    ensures Separate(s.(popAsleep := s.popAsleep + {t}))
  {
  }

  lemma CloserSleeps<T>(s: State<T>, t: Tid)
    requires Separate(s) && t !in s.closeWoken
    ensures Separate(s.(closeAsleep := s.closeAsleep + {t}))
  {
  }

  lemma PopKeeps<T>(s: State<T>, t: Tid, pick: Tid)
    requires |s.queue| <= s.cap && Separate(s) && t !in s.popWoken && MayPickSpace(s, pick)
    requires DataCovered(s, 1) && SpaceCovered(s, 0) && ClosedAwake(s)
    ensures Inv(PopSection(s, t, pick))
  {
    hide Separate, NotifyOneSpace, NotifyAllSpace;
    if s.queue == [] {
      PopperSleeps(s, t);
      SeparateFrame(s, Log(s, Drained(t)));
    } else {
      TakeKeeps(s, t, pick);
    }
  }

  lemma TakeKeeps<T>(s: State<T>, t: Tid, pick: Tid)
    requires s.queue != [] && |s.queue| <= s.cap && Separate(s) && MayPickSpace(s, pick)
    requires DataCovered(s, 1) && SpaceCovered(s, 0) && ClosedAwake(s)
    ensures Inv(PopSection(s, t, pick))
  {
    hide Separate, NotifyOneSpace, NotifyAllSpace;
    var s1 := Log(s.(queue := s.queue[1..]), Popped(t, s.queue[0]));
    SeparateFrame(s, s1);
    if s1.closed && s1.queue == [] {
      AllSpaceNotified(s1);
    } else {
      SpaceNotified(s1, pick);
      NotifySpaceFrame(s1, pick);
    }
  }

  lemma AllSpaceNotified<T>(s: State<T>)
    requires Separate(s)
    ensures var s' := NotifyAllSpace(s);
      Separate(s') && s'.pushAsleep.Keys == {} && s'.closeAsleep == {} &&
      s'.closeWoken == s.closeWoken + s.closeAsleep &&
      s' == s.(pushAsleep := s'.pushAsleep, pushWoken := s'.pushWoken,
               closeAsleep := s'.closeAsleep, closeWoken := s'.closeWoken)
  {
  }

  lemma CloseWaitKeeps<T>(s: State<T>, t: Tid)
    requires Inv(s) && s.closed && t !in s.closeWoken
    ensures Inv(CloseWaitSection(s, t))
  {
    hide Separate;
    CloserSleeps(s, t);
    SeparateFrame(s, Log(s, CloseReturned(t)));
  }

  lemma CloseKeeps<T>(s: State<T>, t: Tid, wait: bool)
    requires Inv(s) && t !in s.closeAsleep && t !in s.closeWoken
    ensures Inv(CloseSection(s, t, wait))
  {
    hide Separate, NotifyAllSpace, NotifyAllData, CloseWaitSection;
    var s0 := Log(s.(closed := true), Closed(t));
    SeparateFrame(s, s0);
    AllDataNotified(s0);
    var s1 := NotifyAllData(s0);
    AllSpaceNotified(s1);
    var s2 := NotifyAllSpace(s1);
    assert Inv(s2);
    if wait { CloseWaitKeeps(s2, t); }
  }

  lemma AllDataNotified<T>(s: State<T>)
    requires Separate(s)
    ensures var s' := NotifyAllData(s);
      Separate(s') && s'.popAsleep == {} && s' == s.(popAsleep := {}, popWoken := s'.popWoken)
  {
  }

  lemma WokenPusherLeaves<T>(s: State<T>, t: Tid)
    requires Inv(s) && t in s.pushWoken
    ensures var s' := s.(pushWoken := s.pushWoken - {t}); Separate(s') && SpaceCovered(s', 1)
  {
    MapShrinks(s.pushWoken, t);
  }

  lemma WokenPopperLeaves<T>(s: State<T>, t: Tid)
    requires Inv(s) && t in s.popWoken
    ensures var s' := s.(popWoken := s.popWoken - {t}); Separate(s') && DataCovered(s', 1)
  {
  }

  lemma WokenCloserLeaves<T>(s: State<T>, t: Tid)
    requires Inv(s) && t in s.closeWoken
    ensures Separate(s.(closeWoken := s.closeWoken - {t}))
  {
  }

  lemma SpuriousKeeps<T>(s: State<T>, t: Tid)
    requires Inv(s) && Enabled(s, Spurious(t))
    ensures Inv(Apply(s, Spurious(t)))
  {
    hide Separate, NotifyOneData, NotifyOneSpace;
    if t in s.popAsleep {
      DataNotified(s, t);
      NotifyDataFrame(s, t);
    } else {
      SpaceNotified(s, t);
      NotifySpaceFrame(s, t);
    }
  }

  /** Every step of every thread keeps the invariant. */
  lemma StepKeeps<T>(s: State<T>, a: Action<T>)
    requires Inv(s) && Enabled(s, a)
    ensures Inv(Apply(s, a))
  {
    hide Separate, NotifyOneData, NotifyOneSpace, PushSection, PopSection, CloseSection, CloseWaitSection;
    match a
    case Push(t, v, pick) => PushKeeps(s, t, v, pick);
    case Pop(t, pick) => PopKeeps(s, t, pick);
    case Close(t, wait) => CloseKeeps(s, t, wait);
    case ResumePush(t, pick) =>
      WokenPusherLeaves(s, t);
      PushKeeps(s.(pushWoken := s.pushWoken - {t}), t, s.pushWoken[t], pick);
    case ResumePop(t, pick) =>
      WokenPopperLeaves(s, t);
      PopKeeps(s.(popWoken := s.popWoken - {t}), t, pick);
    case ResumeClose(t) =>
      WokenCloserLeaves(s, t);
      CloseWaitKeeps(s.(closeWoken := s.closeWoken - {t}), t);
    case Spurious(t) => SpuriousKeeps(s, t);
  }

  lemma StepFrame<T>(s: State<T>, a: Action<T>)
    requires Enabled(s, a)
    ensures Apply(s, a).cap == s.cap
  {
  }

  lemma {:induction false} RunKeeps<T>(s: State<T>, actions: seq<Action<T>>, s': State<T>)
    requires Inv(s) && Reaches(s, actions, s')
    ensures Inv(s') && s'.cap == s.cap
    decreases |actions|
  {
    hide Apply, Inv, Enabled;
    if actions == [] {
    } else {
      StepFrame(s, actions[0]);
      StepKeeps(s, actions[0]);
      RunKeeps(Apply(s, actions[0]), actions[1..], s');
    }
  }

  /**
    In every reachable state: when nobody is on the way to the mutex, each sleeper has reason to sleep.
    So no popper sleeps beside data, no pusher beside space, nobody beside a closed and drained queue,
    and with room for at least one item pushers and poppers never sleep together.
   */
  lemma NobodyForgotten<T>(cap: nat, actions: seq<Action<T>>, s: State<T>)
    requires Reaches(Init(cap), actions, s)
    requires s.popWoken == {} && s.pushWoken == map[] && s.closeWoken == {}
    ensures s.popAsleep != {} ==> s.queue == [] && !s.closed
    ensures s.pushAsleep != map[] ==> |s.queue| == cap && !s.closed
    ensures s.closeAsleep != {} ==> s.queue != [] && s.closed
    ensures cap > 0 ==> s.popAsleep == {} || s.pushAsleep == map[]
  {
    RunKeeps(Init(cap), actions, s);
  }

  // ----- every run is a run of a sequential bounded queue -----

  datatype Fifo<T> = Fifo(items: seq<T>, closed: bool)

  /** The operations of an atomic bounded queue that can be closed; None where the event is not possible. */
  function FifoStep<T(==)>(cap: nat, f: Fifo<T>, e: Event<T>): Option<Fifo<T>>
  {
    match e
    case Pushed(_, v) => if !f.closed && |f.items| < cap then Some(f.(items := f.items + [v])) else None
    case Refused(_, _) => if f.closed then Some(f) else None
    case Popped(_, v) => if f.items != [] && f.items[0] == v then Some(f.(items := f.items[1..])) else None
    case Drained(_) => if f.closed && f.items == [] then Some(f) else None
    case Closed(_) => Some(f.(closed := true))
    case CloseReturned(_) => if f.closed && f.items == [] then Some(f) else None
  }

  function Replay<T(==)>(cap: nat, h: seq<Event<T>>): Option<Fifo<T>>
  {
    if h == [] then Some(Fifo([], false))
    else match Replay(cap, h[..|h| - 1])
      case None => None
      case Some(f) => FifoStep(cap, f, h[|h| - 1])
  }

  predicate Agrees<T(==)>(s: State<T>)
  {
    Replay(s.cap, s.history) == Some(Fifo(s.queue, s.closed))
  }

  lemma ReplayAppend<T>(cap: nat, h: seq<Event<T>>, e: Event<T>)
    ensures Replay(cap, h + [e]) == match Replay(cap, h) case None => None case Some(f) => FifoStep(cap, f, e)
  {
    assert (h + [e])[..|h|] == h;
  }

  /** A section that logs one event moves the sequential queue along. */
  lemma Logged<T>(s: State<T>, e: Event<T>, s': State<T>)
    requires Agrees(s) && s'.cap == s.cap && s'.history == s.history + [e]
    requires FifoStep(s.cap, Fifo(s.queue, s.closed), e) == Some(Fifo(s'.queue, s'.closed))
    ensures Agrees(s')
  {
    ReplayAppend(s.cap, s.history, e);
  }

  lemma Unlogged<T>(s: State<T>, s': State<T>)
    requires Agrees(s) && s'.cap == s.cap && s'.history == s.history
    requires s'.queue == s.queue && s'.closed == s.closed
    ensures Agrees(s')
  {
  }

  lemma PushAgrees<T>(s: State<T>, t: Tid, v: T, pick: Tid)
    requires Agrees(s)
    ensures Agrees(PushSection(s, t, v, pick))
  {
    hide Replay;
    var s' := PushSection(s, t, v, pick);
    if !s.closed && |s.queue| >= s.cap {
      Unlogged(s, s');
    } else {
      Logged(s, if s.closed then Refused(t, v) else Pushed(t, v), s');
    }
  }

  lemma PopAgrees<T>(s: State<T>, t: Tid, pick: Tid)
    requires Agrees(s)
    ensures Agrees(PopSection(s, t, pick))
  {
    hide Replay;
    var s' := PopSection(s, t, pick);
    if s.queue == [] && !s.closed {
      Unlogged(s, s');
    } else {
      Logged(s, if s.queue == [] then Drained(t) else Popped(t, s.queue[0]), s');
    }
  }

  lemma CloseWaitAgrees<T>(s: State<T>, t: Tid)
    requires Agrees(s) && s.closed
    ensures Agrees(CloseWaitSection(s, t))
  {
    hide Replay;
    var s' := CloseWaitSection(s, t);
    if s.queue != [] { Unlogged(s, s'); } else { Logged(s, CloseReturned(t), s'); }
  }

  lemma CloseAgrees<T>(s: State<T>, t: Tid, wait: bool)
    requires Agrees(s)
    ensures Agrees(CloseSection(s, t, wait))
  {
    hide Replay, CloseWaitSection;
    var s1 := NotifyAllSpace(NotifyAllData(Log(s.(closed := true), Closed(t))));
    Logged(s, Closed(t), s1);
    if wait { CloseWaitAgrees(s1, t); }
  }

  lemma StepAgrees<T>(s: State<T>, a: Action<T>)
    requires Inv(s) && Enabled(s, a) && Agrees(s)
    ensures Agrees(Apply(s, a))
  {
    hide Replay, PushSection, PopSection, CloseSection, CloseWaitSection;
    match a
    case Push(t, v, pick) => PushAgrees(s, t, v, pick);
    case Pop(t, pick) => PopAgrees(s, t, pick);
    case Close(t, wait) => CloseAgrees(s, t, wait);
    case ResumePush(t, pick) => PushAgrees(s.(pushWoken := s.pushWoken - {t}), t, s.pushWoken[t], pick);
    case ResumePop(t, pick) => PopAgrees(s.(popWoken := s.popWoken - {t}), t, pick);
    case ResumeClose(t) => CloseWaitAgrees(s.(closeWoken := s.closeWoken - {t}), t);
    case Spurious(t) =>
  }

  lemma {:induction false} RunAgrees<T>(s: State<T>, actions: seq<Action<T>>, s': State<T>)
    requires Inv(s) && Agrees(s) && Reaches(s, actions, s')
    ensures Agrees(s')
    decreases |actions|
  {
    hide Apply, Inv, Enabled, Agrees;
    if actions == [] {
    } else {
      StepKeeps(s, actions[0]);
      StepAgrees(s, actions[0]);
      RunAgrees(Apply(s, actions[0]), actions[1..], s');
    }
  }

  // ----- what that says about the values -----

  function Taken<T>(e: Event<T>): seq<T>
  {
    match e case Pushed(_, v) => [v] case _ => []
  }

  function Given<T>(e: Event<T>): seq<T>
  {
    match e case Popped(_, v) => [v] case _ => []
  }

  function Accepted<T>(h: seq<Event<T>>): seq<T>
  {
    if h == [] then []
    else Accepted(h[..|h| - 1]) + Taken(h[|h| - 1])
  }

  function Delivered<T>(h: seq<Event<T>>): seq<T>
  {
    if h == [] then []
    else Delivered(h[..|h| - 1]) + Given(h[|h| - 1])
  }

  lemma ConservationStep<T>(cap: nat, d: seq<T>, f: Fifo<T>, e: Event<T>, g: Fifo<T>)
    requires FifoStep(cap, f, e) == Some(g)
    ensures d + f.items + Taken(e) == d + Given(e) + g.items
  {
  }

  lemma {:induction false} Conservation<T>(cap: nat, h: seq<Event<T>>)
    requires Replay(cap, h).Some?
    ensures Accepted(h) == Delivered(h) + Replay(cap, h).value.items
    ensures |Replay(cap, h).value.items| <= cap
  {
    if h == [] {
    } else {
      var h0, e := h[..|h| - 1], h[|h| - 1];
      Conservation(cap, h0);
      hide Taken, Given;
      ConservationStep(cap, Delivered(h0), Replay(cap, h0).value, e, Replay(cap, h).value);
    }
  }

  /** Once closed a legal history accepts nothing more, and once closed and empty it delivers nothing more. */
  lemma {:induction false} AfterClose<T>(cap: nat, h: seq<Event<T>>, n: nat)
    requires n <= |h| && Replay(cap, h).Some?
    ensures Replay(cap, h[..n]).Some?
    ensures Replay(cap, h[..n]).value.closed ==>
              Replay(cap, h).value.closed && Accepted(h) == Accepted(h[..n])
    ensures Replay(cap, h[..n]).value == Fifo([], true) ==>
              Replay(cap, h).value == Fifo([], true) && Delivered(h) == Delivered(h[..n])
  {
    if n == |h| {
      assert h[..n] == h;
    } else {
      var h0 := h[..|h| - 1];
      assert h0[..n] == h[..n];
      AfterClose(cap, h0, n);
    }
  }

  /**
    Linearizability over every run: the logged events are a history of the sequential queue whose state is the
    monitor's, so accepted values are the delivered ones followed by the queue, in order; the capacity holds;
    and after a pop that reported the end nothing is accepted or delivered.
   */
  lemma Linearizable<T>(cap: nat, actions: seq<Action<T>>, s: State<T>)
    requires Reaches(Init(cap), actions, s)
    ensures Replay(cap, s.history) == Some(Fifo(s.queue, s.closed))
    ensures Accepted(s.history) == Delivered(s.history) + s.queue && |s.queue| <= cap
    ensures forall n :: 0 <= n < |s.history| && s.history[n].Drained? ==>
              Accepted(s.history) == Accepted(s.history[..n]) == Delivered(s.history[..n]) == Delivered(s.history)
  {
    hide Replay, Reaches, Apply, Enabled;
    FreshAgrees<T>(cap);
    RunKeeps(Init(cap), actions, s);
    RunAgrees(Init(cap), actions, s);
    Conservation(cap, s.history);
    forall n | 0 <= n < |s.history| && s.history[n].Drained?
      ensures Accepted(s.history) == Accepted(s.history[..n]) == Delivered(s.history[..n]) == Delivered(s.history)
    {
      DrainedMeansEmpty(cap, s.history, n);
      AfterClose(cap, s.history, n);
      Conservation(cap, s.history[..n]);
    }
  }

  lemma FreshAgrees<T>(cap: nat)
    ensures Inv(Init<T>(cap)) && Agrees(Init<T>(cap))
  {
  }

  lemma DrainedMeansEmpty<T>(cap: nat, h: seq<Event<T>>, n: nat)
    requires n < |h| && h[n].Drained? && Replay(cap, h).Some?
    ensures Replay(cap, h[..n]) == Some(Fifo([], true))
  {
    AfterClose(cap, h, n + 1);
    assert h[..n + 1][..n] == h[..n];
  }

  // ----- the object itself -----

  /** What a call reports when it gives the mutex up: its return value, or that it went to sleep. */
  datatype Outcome<T> = Waits | Returns(ok: bool) | Gives(value: T)

  /** The fields of the class, with the waiting threads and the log of what was decided as ghosts. */
  class Queue<T> {
    const maxSize: nat
    var queue: seq<T>
    var closed: bool
    ghost var pushAsleep: map<Tid, T>
    ghost var pushWoken: map<Tid, T>
    ghost var popAsleep: set<Tid>
    ghost var popWoken: set<Tid>
    ghost var closeAsleep: set<Tid>
    ghost var closeWoken: set<Tid>
    ghost var history: seq<Event<T>>

    ghost function Monitor(): State<T>
      reads this
    {
      State(maxSize, queue, closed, pushAsleep, pushWoken, popAsleep, popWoken, closeAsleep, closeWoken, history)
    }

    constructor (maxSize: nat)
      ensures Monitor() == Init(maxSize)
    {
      this.maxSize := maxSize;
      queue, closed, history := [], false, [];
      pushAsleep, pushWoken := map[], map[];
      popAsleep, popWoken, closeAsleep, closeWoken := {}, {}, {}, {};
    }

    ghost method HaveDataNotifyOne(pick: Tid)
      modifies this`popAsleep, this`popWoken
      ensures Monitor() == NotifyOneData(old(Monitor()), pick)
    {
      if pick in popAsleep { popAsleep, popWoken := popAsleep - {pick}, popWoken + {pick}; }
    }

    ghost method HaveSpaceNotifyOne(pick: Tid)
      modifies this`pushAsleep, this`pushWoken, this`closeAsleep, this`closeWoken
      ensures Monitor() == NotifyOneSpace(old(Monitor()), pick)
    {
      if pick in pushAsleep {
        pushWoken := pushWoken[pick := pushAsleep[pick]];
        pushAsleep := pushAsleep - {pick};
      } else if pick in closeAsleep {
        closeAsleep, closeWoken := closeAsleep - {pick}, closeWoken + {pick};
      }
    }

    ghost method HaveSpaceNotifyAll()
      modifies this`pushAsleep, this`pushWoken, this`closeAsleep, this`closeWoken
      ensures Monitor() == NotifyAllSpace(old(Monitor()))
    {
      pushAsleep, pushWoken := map[], pushWoken + pushAsleep;
      closeAsleep, closeWoken := {}, closeWoken + closeAsleep;
    }

    /** push from taking the mutex to returning or waiting on m_haveSpace */
    method PushCritical(t: Tid, v: T, ghost pick: Tid) returns (r: Outcome<T>)
      modifies this
      ensures Monitor() == PushSection(old(Monitor()), t, v, pick)
      ensures r == if !old(closed) && |old(queue)| >= maxSize then Waits else Returns(!old(closed))
    {
      if !closed && |queue| >= maxSize {
        pushAsleep := pushAsleep[t := v];
        return Waits;
      }
      if closed {
        history := history + [Refused(t, v)];
        return Returns(false);
      }
      queue := queue + [v];
      history := history + [Pushed(t, v)];
      HaveDataNotifyOne(pick);
      r := Returns(true);
    }

    method PopCritical(t: Tid, ghost pick: Tid) returns (r: Outcome<T>)
      modifies this
      ensures Monitor() == PopSection(old(Monitor()), t, pick)
      ensures r == if old(queue) != [] then Gives(old(queue)[0]) else if old(closed) then Returns(false) else Waits
    {
      if queue == [] {
        if closed {
          history := history + [Drained(t)];
          return Returns(false);
        }
        popAsleep := popAsleep + {t};
        return Waits;
      }
      var v := queue[0];
      queue := queue[1..];
      history := history + [Popped(t, v)];
      if closed && queue == [] {
        HaveSpaceNotifyAll();
      } else {
        HaveSpaceNotifyOne(pick);
      }
      r := Gives(v);
    }

    method CloseCritical(t: Tid, wait: bool) returns (r: Outcome<T>)
      modifies this
      ensures Monitor() == CloseSection(old(Monitor()), t, wait)
      ensures r == if wait && queue != [] then Waits else Returns(true)
    {
      closed := true;
      history := history + [Closed(t)];
      popAsleep, popWoken := {}, popWoken + popAsleep;
      HaveSpaceNotifyAll();
      if !wait {
        return Returns(true);
      }
      if queue != [] {
        closeAsleep := closeAsleep + {t};
        return Waits;
      }
      history := history + [CloseReturned(t)];
      r := Returns(true);
    }

    /** The loop of close(true) after a wake-up. */
    method CloseResumed(t: Tid) returns (r: Outcome<T>)
      modifies this
      ensures Monitor() == CloseWaitSection(old(Monitor()), t)
      ensures r == if queue != [] then Waits else Returns(true)
    {
      if queue != [] {
        closeAsleep := closeAsleep + {t};
        return Waits;
      }
      history := history + [CloseReturned(t)];
      r := Returns(true);
    }
  }
}
