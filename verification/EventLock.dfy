/** The lock of src/System/EventLock.cpp, taken by any number of contexts on one event that starts signalled. */
module EventLock {
  import opened Waiters
  import Event

  /** Where each context is: holding the lock, asleep in wait(), or handed back and about to test the event again. */
  datatype State = State(event: Event.State, holders: set<Context>, asleep: set<Context>, ready: set<Context>)

  datatype Action = Enter(c: Context) | Resume(c: Context) | Leave(c: Context)

  function Init(): State
  {
    State(Event.SetStep(Event.Init()), {}, {}, {})
  }

  predicate Enabled(s: State, a: Action)
  {
    match a
    case Enter(c) => c !in s.holders && c !in s.asleep && c !in s.ready
    case Resume(c) => c in s.ready
    case Leave(c) => c in s.holders
  }

  /** The constructor from a test of the event on: clear it and hold the lock, or wait. */
  function TryLock(s: State, c: Context): State
  {
    if s.event.signalled then s.(event := Event.ClearStep(s.event), holders := s.holders + {c})
    else s.(event := Event.WaitStep(s.event, c), asleep := s.asleep + {c})
  }

  /** The destructor: the contexts in the event's list are handed back. */
  function Unlock(s: State, c: Context): State
  {
    var back := set x | x in s.event.blocked;
    State(Event.SetStep(s.event), s.holders - {c}, s.asleep - back, s.ready + back)
  }

  function Apply(s: State, a: Action): State
    requires Enabled(s, a)
  {
    match a
    case Enter(c) => TryLock(s, c)
    case Resume(c) => TryLock(s.(ready := s.ready - {c}), c)
    case Leave(c) => Unlock(s, c)
  }

  ghost predicate Reaches(s: State, actions: seq<Action>, s': State)
    decreases |actions|
  {
    if actions == [] then s == s'
    else Enabled(s, actions[0]) && Reaches(Apply(s, actions[0]), actions[1..], s')
  }

  /** One holder and the event clear, or no holder, the event set and the list empty. */
  predicate Exclusive(s: State)
  {
    if s.event.signalled then s.holders == {} && s.event.blocked == [] && s.asleep == {}
    else |s.holders| == 1
  }

  ghost predicate Inv(s: State)
  {
    Exclusive(s) && Event.Inv(s.event) && (forall c :: c in s.asleep <==> c in s.event.blocked) &&
    NoRepeats(s.event.blocked) &&
    s.holders !! s.asleep && s.holders !! s.ready && s.asleep !! s.ready
  }

  predicate NoRepeats(cs: seq<Context>)
  {
    forall i, j :: 0 <= i < j < |cs| ==> cs[i] != cs[j]
  }

  lemma TryLockKeeps(s: State, c: Context)
    requires Inv(s) && c !in s.holders && c !in s.asleep && c !in s.ready
    ensures Inv(TryLock(s, c))
  {
    if s.event.signalled {
      Event.StepKeeps(s.event, Event.Clear);
      assert s.holders + {c} == {c};
    } else {
      Event.StepKeeps(s.event, Event.Wait(c));
    }
  }

  lemma UnlockKeeps(s: State, c: Context)
    requires Inv(s) && c in s.holders
    ensures Inv(Unlock(s, c))
  {
    Event.StepKeeps(s.event, Event.Set);
    assert |s.holders - {c}| == 0;
  }

  lemma {:induction false} RunKeeps(s: State, actions: seq<Action>, s': State)
    requires Inv(s) && Reaches(s, actions, s')
    ensures Inv(s')
    decreases |actions|
  {
    hide Inv, TryLock, Unlock;
    if actions == [] {
    } else {
      var a := actions[0];
      StepKeeps(s, a);
      RunKeeps(Apply(s, a), actions[1..], s');
    }
  }

  lemma StepKeeps(s: State, a: Action)
    requires Inv(s) && Enabled(s, a)
    ensures Inv(Apply(s, a))
  {
    match a
    case Enter(c) => TryLockKeeps(s, c);
    case Resume(c) => TryLockKeeps(s.(ready := s.ready - {c}), c);
    case Leave(c) => UnlockKeeps(s, c);
  }

  /** In every run at most one context holds the lock, and when none does nobody is left asleep in the list. */
  lemma MutualExclusion(actions: seq<Action>, s: State)
    requires Reaches(Init(), actions, s)
    ensures |s.holders| <= 1
    ensures s.holders == {} <==> s.event.signalled
    ensures s.holders == {} ==> s.event.blocked == [] && s.asleep == {}
  {
    RunKeeps(Init(), actions, s);
  }

  // ----- the same steps on an event object -----

  /** One turn of the constructor's loop: null when the lock is held, else the record the context sleeps on. */
  method TryLockOn(event: Event.Event, c: Context) returns (w: Waiter?)
    requires event.Valid()
    modifies event, event.waiters, event.frames
    ensures event.Valid() && (w == null <==> old(event.View().signalled))
    ensures event.View() == TryLock(State(old(event.View()), {}, {}, {}), c).event
  {
    var signalled := event.Get();
    if signalled {
      event.Clear();
      w := null;
    } else {
      w := event.BeginWait(c);
    }
  }

  method UnlockOn(event: Event.Event)
    requires event.Valid()
    modifies event, event.waiters, event.dispatcher
    ensures event.Valid() && event.View().signalled && event.View().blocked == []
    ensures !old(event.View().signalled) ==>
              event.dispatcher.ready == old(event.dispatcher.ready) + old(event.View().blocked)
  {
    event.Set();
  }
}
