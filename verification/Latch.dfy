/** The counting latch of src/System/Latch.cpp. */
module Latch {
  import opened Words
  import opened Waiters

  // ----- the latch as a state machine -----

  /** The counter, the contexts in the list, and two logs: every blocking wait, and every context handed back. */
  datatype State = State(value: u64, blocked: seq<Context>, arrivals: seq<Context>, woken: seq<Context>)

  datatype Action = Increase(n: u64) | Decrease(n: u64) | Wait(c: Context)

  function Init(): State
  {
    State(0, [], [], [])
  }

  /** The sum wraps at the word size; leaving zero starts a new list. */
  function IncreaseStep(s: State, n: u64): State
  {
    if n == 0 then s
    else s.(blocked := if s.value == 0 then [] else s.blocked, value := (s.value + n) % TWO64)
  }

  function DecreaseStep(s: State, n: u64): State
    requires n <= s.value
  {
    if n == 0 then s
    else if s.value > n then s.(value := s.value - n)
    else s.(value := 0, blocked := [], woken := s.woken + s.blocked)
  }

  function WaitStep(s: State, c: Context): State
  {
    if s.value == 0 then s else s.(blocked := s.blocked + [c], arrivals := s.arrivals + [c])
  }

  /** decrease asserts that it does not go below zero. */
  predicate Enabled(s: State, a: Action)
  {
    a.Decrease? ==> a.n <= s.value
  }

  function Apply(s: State, a: Action): State
    requires Enabled(s, a)
  {
    match a
    case Increase(n) => IncreaseStep(s, n)
    case Decrease(n) => DecreaseStep(s, n)
    case Wait(c) => WaitStep(s, c)
  }

  /** Every wait that blocked is still in the list or was handed back once, in order; at zero nobody is in the list. */
  predicate Inv(s: State)
  {
    s.arrivals == s.woken + s.blocked && (s.value == 0 ==> s.blocked == [])
  }

  /** The one sum that loses sleepers: it comes round to exactly zero while somebody waits. */
  predicate WrapsToZero(s: State, a: Action)
  {
    a.Increase? && s.blocked != [] && s.value + a.n == TWO64
  }

  lemma StepKeepsIff(s: State, a: Action)
    requires Inv(s) && Enabled(s, a)
    ensures Inv(Apply(s, a)) <==> !WrapsToZero(s, a)
  {
    match a
    case Increase(n) =>
      if s.value + n >= TWO64 {
        DivModUnique(1, TWO64, s.value + n - TWO64);
      } else {
        DivModUnique(0, TWO64, s.value + n);
      }
    case Decrease(n) =>
      assert s.woken + s.blocked == s.woken + s.blocked + [];
    case Wait(c) =>
      assert s.woken + s.blocked + [c] == s.woken + (s.blocked + [c]);
  }

  /** After such a sum the next increase drops the sleepers from the list without handing them back. */
  lemma SleepersLost(s: State, n: u64, m: u64)
    requires Inv(s) && WrapsToZero(s, Increase(n)) && 0 < m
    ensures var s' := IncreaseStep(IncreaseStep(s, n), m);
      s'.blocked == [] && s'.woken == s.woken && s'.arrivals == s.woken + s.blocked && s'.arrivals != s'.woken
  {
    DivModUnique(1, TWO64, 0);
  }

  // ----- runs -----

  /** Every action is enabled where it is taken. */
  predicate Legal(actions: seq<Action>)
    decreases |actions|, 0
  {
    actions == [] ||
    (Legal(actions[..|actions| - 1]) && Enabled(After(actions[..|actions| - 1]), actions[|actions| - 1]))
  }

  function After(actions: seq<Action>): State
    requires Legal(actions)
    decreases |actions|, 1
  {
    if actions == [] then Init() else Apply(After(actions[..|actions| - 1]), actions[|actions| - 1])
  }

  /** No increase of the run comes round to zero under sleepers. */
  predicate NeverWraps(actions: seq<Action>)
    requires Legal(actions)
    decreases |actions|
  {
    actions == [] ||
    (NeverWraps(actions[..|actions| - 1]) && !WrapsToZero(After(actions[..|actions| - 1]), actions[|actions| - 1]))
  }

  /** Some wait was dropped from the list, or will be by the next increase. */
  predicate Lost(s: State)
  {
    |s.arrivals| > |s.woken| + |s.blocked| ||
    (|s.arrivals| == |s.woken| + |s.blocked| && s.value == 0 && s.blocked != [])
  }

  lemma LostStaysLost(s: State, a: Action)
    requires Lost(s) && Enabled(s, a)
    ensures Lost(Apply(s, a))
  {
  }

  /** Over every run: the invariant holds at its end if and only if no increase wrapped to zero under sleepers. */
  lemma {:induction false} RunKeepsIff(actions: seq<Action>)
    requires Legal(actions)
    ensures Inv(After(actions)) <==> NeverWraps(actions)
    ensures Lost(After(actions)) <==> !NeverWraps(actions)
    decreases |actions|
  {
    if actions == [] {
    } else {
      var before, a := actions[..|actions| - 1], actions[|actions| - 1];
      var s := After(before);
      RunKeepsIff(before);
      if NeverWraps(before) {
        StepKeepsIff(s, a);
        if WrapsToZero(s, a) { DivModUnique(1, TWO64, 0); }
      } else {
        LostStaysLost(s, a);
      }
    }
  }

  /**
    Whenever the counter is back at zero, every context that ever waited was handed back exactly once and in order,
    if and only if no increase wrapped to zero under sleepers.
   */
  lemma AllWoken(actions: seq<Action>)
    requires Legal(actions) && After(actions).value == 0
    ensures After(actions).woken == After(actions).arrivals <==> NeverWraps(actions)
  {
    hide After, NeverWraps;
    RunKeepsIff(actions);
    var s := After(actions);
    assert s.woken + [] == s.woken;
  }

  /** The shortest run that loses a sleeper: the counter is at one again, and the context is nowhere. */
  lemma SleeperLostInRun(c: Context)
    ensures var actions := [Increase(1), Wait(c), Increase(TWO64 - 1), Increase(1)];
      Legal(actions) && !NeverWraps(actions) && After(actions) == State(1, [], [c], [])
  {
    var a1 := [Increase(1)];
    var a2 := a1 + [Wait(c)];
    var a3 := a2 + [Increase(TWO64 - 1)];
    var a4 := a3 + [Increase(1)];
    assert a1[..0] == [] && a2[..1] == a1 && a3[..2] == a2 && a4[..3] == a3;
    assert Legal(a1) && After(a1) == State(1, [], [], []);
    assert Legal(a2) && After(a2) == State(1, [c], [c], []);
    assert Legal(a3) && After(a3) == State(0, [c], [c], []);
    assert a4 == [Increase(1), Wait(c), Increase(TWO64 - 1), Increase(1)];
  }

  /** What the increases add less what the decreases take. */
  function Net(actions: seq<Action>): int
  {
    if actions == [] then 0
    else
      var a := actions[|actions| - 1];
      Net(actions[..|actions| - 1]) + match a case Increase(n) => n case Decrease(n) => 0 - n case Wait(_) => 0
  }

  /** In every run the counter is that number, less a word's range for each time it went round. */
  lemma {:induction false} CounterIs(actions: seq<Action>) returns (laps: nat)
    requires Legal(actions)
    ensures Net(actions) == laps * TWO64 + After(actions).value && After(actions).value == Net(actions) % TWO64
    decreases |actions|
  {
    if actions == [] {
      laps := 0;
    } else {
      var before, a := actions[..|actions| - 1], actions[|actions| - 1];
      laps := CounterIs(before);
      var sum := After(before).value + if a.Increase? then a.n else 0;
      if sum >= TWO64 {
        DivModUnique(1, TWO64, sum - TWO64);
        laps := laps + 1;
      } else {
        DivModUnique(0, TWO64, sum);
      }
    }
    DivModUnique(laps, TWO64, After(actions).value);
  }

  function WaitOf(a: Action): seq<Context>
  {
    if a.Wait? then [a.c] else []
  }

  /** The counter was above zero after every prefix of n or more actions. */
  predicate StaysAbove(actions: seq<Action>, n: nat)
    requires Legal(actions)
  {
    |actions| < n || (After(actions).value > 0 && (|actions| == n || StaysAbove(actions[..|actions| - 1], n)))
  }

  /**
    Whenever the counter is above zero, the list is exactly the waits since the increase at k - 1 that last raised
    it from zero, in order of arrival.
   */
  lemma {:induction false} BlockedSinceZero(actions: seq<Action>) returns (k: nat)
    requires Legal(actions) && After(actions).value > 0
    ensures 0 < k <= |actions| && actions[k - 1].Increase? && StaysAbove(actions, k)
    ensures Legal(actions[..k - 1]) && After(actions[..k - 1]).value == 0
    ensures After(actions).blocked == Waits(actions[k..], WaitOf)
    decreases |actions|
  {
    hide Waits;
    WaitsNone(WaitOf);
    var n := |actions| - 1;
    var before := actions[..n];
    if After(before).value == 0 {
      k := n + 1;
      assert actions[k..] == [];
    } else {
      k := BlockedSinceZero(before);
      assert before[..k - 1] == actions[..k - 1] && before[k - 1] == actions[k - 1];
      WaitsStep(actions, WaitOf, k);
    }
  }

  // ----- the latch as an object over stack records -----

  class Latch {
    const dispatcher: Dispatcher
    const waiters: WaiterList
    var value: u64
    ghost var frames: set<Waiter>  // records of waits that have not returned
    ghost var pushed: set<Waiter>  // those whose context was handed back
    ghost var arrivals: seq<Context>
    ghost var woken: seq<Context>

    ghost function View(): State
      reads this, waiters
    {
      State(value, Contexts(waiters.list), arrivals, woken)
    }

    /** Above zero the pointers lead through live records only; at zero they may dangle. */
    ghost predicate Valid()
      reads this, waiters, waiters.list
    {
      Inv(View()) &&
      (value > 0 ==> waiters.Chain()) &&
      pushed !! (set w | w in waiters.list) &&
      frames == pushed + set w | w in waiters.list
    }

    constructor (dispatcher: Dispatcher)
      ensures Valid() && View() == Init() && fresh(waiters) && frames == {} && this.dispatcher == dispatcher
    {
      this.dispatcher := dispatcher;
      var list := new WaiterList();
      waiters := list;
      value, frames, pushed, arrivals, woken := 0, {}, {}, [], [];
    }

    method Increase(n: u64)
      requires Valid()
      modifies this, waiters
      ensures View() == IncreaseStep(old(View()), n) && frames == old(frames) && pushed == old(pushed)
      ensures Valid() <==> !WrapsToZero(old(View()), Action.Increase(n))
    {
      StepKeepsIff(View(), Action.Increase(n));
      if n > 0 {
        if value == 0 {
          waiters.Reset();
        }
        value := (value + n) % TWO64;
      }
    }

    method Decrease(n: u64)
      requires Valid() && n <= value
      modifies this, waiters, dispatcher
      ensures Valid() && View() == DecreaseStep(old(View()), n) && frames == old(frames)
      ensures dispatcher.ready == old(dispatcher.ready) + if n > 0 && n == old(value) then old(View().blocked) else []
      ensures pushed == if n > 0 && n == old(value) then frames else old(pushed)
    {
      StepKeepsIff(View(), Action.Decrease(n));
      if n > 0 {
        if value > 0 {
          value := value - n;
          if value == 0 {
            ghost var visited := waiters.PushAll(dispatcher, frames);
            woken := woken + Contexts(waiters.list);
            pushed := frames;
            waiters.list := [];
          }
        }
      }
    }

    /** wait() up to its dispatch; the record it puts in the list lives until EndWait. */
    method BeginWait(c: Context) returns (w: Waiter?)
      requires Valid()
      modifies this, waiters, frames
      ensures Valid() && View() == WaitStep(old(View()), c)
      ensures w == null <==> old(value) == 0
      ensures w != null ==> fresh(w) && w.context == c && frames == old(frames) + {w} && w !in pushed
      ensures pushed == old(pushed) && (w == null ==> frames == old(frames))
    {
      w := null;
      if value > 0 {
        w := new Waiter(c);
        ghost var before := waiters.list;
        waiters.Append(w, frames);
        ContextsAppend(before, w);
        StepKeepsIff(old(View()), Action.Wait(c));
        arrivals := arrivals + [c];
        frames := frames + {w};
      }
    }

    /** The context was handed back and runs again: its record goes away with its frame. */
    method EndWait(w: Waiter)
      requires Valid() && w in pushed
      modifies this
      ensures Valid() && View() == old(View()) && frames == old(frames) - {w} && pushed == old(pushed) - {w}
    {
      frames, pushed := frames - {w}, pushed - {w};
    }
  }
}
