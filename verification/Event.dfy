/** The manual-reset event of src/System/Event.cpp. */
module Event {
  import opened Waiters

  // ----- the event as a state machine -----

  /** The flag, the contexts in the list, and two logs: every blocking wait, and every context handed back. */
  datatype State = State(signalled: bool, blocked: seq<Context>, arrivals: seq<Context>, woken: seq<Context>)

  function Init(): State
  {
    State(false, [], [], [])
  }

  function ClearStep(s: State): State
  {
    if s.signalled then s.(signalled := false, blocked := []) else s
  }

  function SetStep(s: State): State
  {
    if s.signalled then s
    else s.(signalled := true, blocked := [], woken := s.woken + s.blocked)
  }

  function WaitStep(s: State, c: Context): State
  {
    if s.signalled then s else s.(blocked := s.blocked + [c], arrivals := s.arrivals + [c])
  }

  datatype Action = Clear | Set | Wait(c: Context)

  function Apply(s: State, a: Action): State
  {
    match a
    case Clear => ClearStep(s)
    case Set => SetStep(s)
    case Wait(c) => WaitStep(s, c)
  }

  function Run(s: State, actions: seq<Action>): State
    decreases |actions|
  {
    if actions == [] then s else Run(Apply(s, actions[0]), actions[1..])
  }

  /** Every wait that blocked is either still in the list or was handed back, each once and in order of arrival. */
  predicate Inv(s: State)
  {
    s.arrivals == s.woken + s.blocked && (s.signalled ==> s.blocked == [])
  }

  lemma StepKeeps(s: State, a: Action)
    requires Inv(s)
    ensures Inv(Apply(s, a))
  {
    if a.Set? && !s.signalled {
      assert s.woken + s.blocked == s.woken + s.blocked + [];
    } else if a.Wait? && !s.signalled {
      assert s.woken + s.blocked + [a.c] == s.woken + (s.blocked + [a.c]);
    }
  }

  lemma {:induction false} RunKeeps(s: State, actions: seq<Action>)
    requires Inv(s)
    ensures Inv(Run(s, actions))
    decreases |actions|
  {
    if actions == [] {
    } else {
      StepKeeps(s, actions[0]);
      RunKeeps(Apply(s, actions[0]), actions[1..]);
    }
  }

  function WaitOf(a: Action): seq<Context>
  {
    if a.Wait? then [a.c] else []
  }

  lemma {:induction false} RunAppend(s: State, actions: seq<Action>, a: Action)
    ensures Run(s, actions + [a]) == Apply(Run(s, actions), a)
    decreases |actions|
  {
    if actions == [] {
      assert [a][1..] == [];
    } else {
      RunAppend(Apply(s, actions[0]), actions[1..], a);
      assert (actions + [a])[1..] == actions[1..] + [a];
    }
  }

  lemma Nothing()
    ensures Run(Init(), []) == Init() && Waits([], WaitOf) == []
  {
  }

  /**
    Whenever the event is not signalled, its list is exactly the waits since the last reset, in order of arrival:
    since the clear at k - 1 that found it signalled, or since the start if there was none.
   */
  lemma {:induction false} BlockedSinceReset(actions: seq<Action>) returns (k: nat)
    requires !Run(Init(), actions).signalled
    ensures k <= |actions| && forall i :: k <= i < |actions| ==> !actions[i].Set?
    ensures k == 0 || (actions[k - 1].Clear? && Run(Init(), actions[..k - 1]).signalled)
    ensures Run(Init(), actions).blocked == Waits(actions[k..], WaitOf)
    decreases |actions|
  {
    hide Run, Waits;
    Nothing();
    if actions == [] {
      k := 0;
    } else {
      var n := |actions| - 1;
      var before, a := actions[..n], actions[n];
      assert actions == before + [a];
      RunAppend(Init(), before, a);
      if Run(Init(), before).signalled {
        k := n + 1;
        assert actions[k..] == [];
      } else {
        k := BlockedSinceReset(before);
        assert k > 0 ==> before[..k - 1] == actions[..k - 1] && before[k - 1] == actions[k - 1];
        WaitsStep(actions, WaitOf, k);
      }
    }
  }

  predicate LastIsSet(actions: seq<Action>, k: nat)
  {
    k < |actions| && actions[k].Set? && forall i :: k < i < |actions| ==> !actions[i].Clear?
  }

  /** The event is signalled if and only if it was set and not cleared since. */
  lemma {:induction false} SignalledSinceSet(actions: seq<Action>)
    ensures Run(Init(), actions).signalled <==> exists k: nat :: LastIsSet(actions, k)
    decreases |actions|
  {
    hide Run;
    Nothing();
    if actions == [] {
    } else {
      var n := |actions| - 1;
      var before, a := actions[..n], actions[n];
      assert actions == before + [a];
      RunAppend(Init(), before, a);
      SignalledSinceSet(before);
      if a.Set? {
        assert LastIsSet(actions, n);
      } else if a.Wait? {
        if k: nat :| LastIsSet(before, k) { assert LastIsSet(actions, k); }
        if k: nat :| LastIsSet(actions, k) { assert LastIsSet(before, k); }
      }
    }
  }

  // ----- the event as an object over stack records -----

  class Event {
    const dispatcher: Dispatcher
    const waiters: WaiterList
    var state: bool
    ghost var frames: set<Waiter>  // records of waits that have not returned
    ghost var pushed: set<Waiter>  // those whose context was handed back
    ghost var arrivals: seq<Context>
    ghost var woken: seq<Context>

    ghost function View(): State
      reads this, waiters
    {
      State(state, Contexts(waiters.list), arrivals, woken)
    }

    /** While unsignalled the pointers lead through live records only; once signalled they may dangle. */
    ghost predicate Valid()
      reads this, waiters, waiters.list
    {
      Inv(View()) &&
      (!state ==> waiters.Chain()) &&
      pushed !! (set w | w in waiters.list) &&
      frames == pushed + set w | w in waiters.list
    }

    constructor (dispatcher: Dispatcher)
      ensures Valid() && View() == Init() && fresh(waiters) && frames == {} && this.dispatcher == dispatcher
    {
      this.dispatcher := dispatcher;
      var list := new WaiterList();
      waiters := list;
      state, frames, pushed, arrivals, woken := false, {}, {}, [], [];
    }

    method Get() returns (r: bool)
      ensures r == View().signalled
    {
      r := state;
    }

    method Clear()
      requires Valid()
      modifies this, waiters
      ensures Valid() && View() == ClearStep(old(View())) && frames == old(frames) && pushed == old(pushed)
    {
      if state {
        state := false;
        assert waiters.list == [];
        waiters.Reset();
      }
    }

    method Set()
      requires Valid()
      modifies this, waiters, dispatcher
      ensures Valid() && View() == SetStep(old(View())) && frames == old(frames)
      ensures dispatcher.ready == old(dispatcher.ready) + if old(state) then [] else old(View().blocked)
      ensures pushed == if old(state) then old(pushed) else frames
    {
      if !state {
        state := true;
        ghost var visited := waiters.PushAll(dispatcher, frames);
        StepKeeps(old(View()), Action.Set);
        woken := woken + Contexts(waiters.list);
        pushed := frames;
        waiters.list := [];
      }
    }

    /** wait() up to its dispatch; the record it puts in the list lives until EndWait. */
    method BeginWait(c: Context) returns (w: Waiter?)
      requires Valid()
      modifies this, waiters, frames
      ensures Valid() && View() == WaitStep(old(View()), c)
      ensures w == null <==> old(state)
      ensures w != null ==> fresh(w) && w.context == c && frames == old(frames) + {w} && w !in pushed
      ensures pushed == old(pushed) && (w == null ==> frames == old(frames))
    {
      w := null;
      if !state {
        w := new Waiter(c);
        ghost var before := waiters.list;
        waiters.Append(w, frames);
        ContextsAppend(before, w);
        StepKeeps(old(View()), Action.Wait(c));
        arrivals := arrivals + [c];
        frames := frames + {w};
      }
    }

    /** The context was handed back and runs again: its record goes away with its frame. */
    method EndWait(w: Waiter)
      requires Valid() && w in pushed
      modifies this
      ensures Valid() && View() == old(View()) && frames == old(frames) - {w} && pushed == old(pushed) - {w}
    {
      frames, pushed := frames - {w}, pushed - {w};
    }
  }
}
