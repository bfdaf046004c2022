/** GroupClose of src/Common/BlockingQueue.h: the last of a group of closers closes the queue. */
module GroupClose {
  import opened Words

  type Tid = nat

  /**
    The atomic counter, the callers between its load and its decrement, the decrements made so far and, for each
    call of the queue's close, the decrement it came from.
   */
  datatype State = State(count: u64, between: set<Tid>, subs: nat, closes: seq<nat>)

  datatype Action = Load(t: Tid) | Decrement(t: Tid)

  function Init(groupSize: u64): State
  {
    State(groupSize, {}, 0, [])
  }

  predicate Enabled(s: State, a: Action)
  {
    match a
    case Load(t) => t !in s.between
    case Decrement(t) => t in s.between
  }

  /** fetch_sub wraps below zero; a load of zero returns at once. */
  function Apply(s: State, a: Action): State
    requires Enabled(s, a)
  {
    match a
    case Load(t) => if s.count == 0 then s else s.(between := s.between + {t})
    case Decrement(t) =>
      State((s.count - 1) % TWO64, s.between - {t}, s.subs + 1,
            if s.count == 1 then s.closes + [s.subs + 1] else s.closes)
  }

  ghost predicate Reaches(s: State, actions: seq<Action>, s': State)
    decreases |actions|
  {
    if actions == [] then s == s'
    else Enabled(s, actions[0]) && Reaches(Apply(s, actions[0]), actions[1..], s')
  }

  predicate Increasing(ds: seq<nat>)
  {
    forall i, j :: 0 <= i < j < |ds| ==> ds[i] < ds[j]
  }

  /** The counter is the group size less the decrements, modulo the word; every decrement congruent to it closed. */
  ghost predicate Inv(groupSize: u64, s: State)
  {
    (groupSize == 0 ==> s.between == {} && s.subs == 0) &&
    s.count == (groupSize - s.subs) % TWO64 &&
    Increasing(s.closes) &&
    forall d :: d in s.closes <==> 1 <= d <= s.subs && d % TWO64 == groupSize
  }

  lemma CountStep(groupSize: u64, n: nat)
    ensures (((groupSize - n) % TWO64) - 1) % TWO64 == (groupSize - (n + 1)) % TWO64
    ensures (groupSize - n) % TWO64 == 1 <==> (n + 1) % TWO64 == groupSize
  {
    var k, c := (groupSize - n) / TWO64, (groupSize - n) % TWO64;
    assert groupSize - n == TWO64 * k + c;
    if c == 0 {
      ModShift(k - 1, TWO64, TWO64 - 1);
    } else {
      ModShift(k, TWO64, c - 1);
    }
    if c == 1 {
      ModShift(-k, TWO64, groupSize);
      DivModUnique(0, TWO64, groupSize);
    }
  }

  lemma StepKeeps(groupSize: u64, s: State, a: Action)
    requires Inv(groupSize, s) && Enabled(s, a)
    ensures Inv(groupSize, Apply(s, a))
  {
    CountStep(groupSize, s.subs);
    assert forall i :: 0 <= i < |s.closes| ==> s.closes[i] in s.closes;
  }

  lemma {:induction false} RunKeeps(groupSize: u64, s: State, actions: seq<Action>, s': State)
    requires Inv(groupSize, s) && Reaches(s, actions, s')
    ensures Inv(groupSize, s')
    decreases |actions|
  {
    if actions == [] {
    } else {
      StepKeeps(groupSize, s, actions[0]);
      RunKeeps(groupSize, Apply(s, actions[0]), actions[1..], s');
    }
  }

  /**
    In every interleaving, however many further callers race past the load, the calls of close are exactly those of
    the decrements congruent to the group size modulo 2^64: the one that completes the group, and nothing else until
    the counter has gone round its word.
   */
  lemma ClosedByTheLast(groupSize: u64, actions: seq<Action>, s: State)
    requires Reaches(Init(groupSize), actions, s)
    ensures Increasing(s.closes) && forall d :: d in s.closes <==> 1 <= d <= s.subs && d % TWO64 == groupSize
    ensures s.subs < groupSize + TWO64 ==> s.closes == if 0 < groupSize <= s.subs then [groupSize] else []
    ensures s.subs < groupSize ==> s.count != 0  // so none of the group is turned away by the load
  {
    RunKeeps(groupSize, Init(groupSize), actions, s);
    if s.subs < groupSize + TWO64 {
      forall d | d in s.closes ensures d == groupSize { FirstCongruent(groupSize, d); }
      assert groupSize in s.closes <==> 0 < groupSize <= s.subs by { FirstCongruent(groupSize, groupSize); }
      OnlyOne(s.closes, groupSize);
    }
  }

  lemma FirstCongruent(groupSize: u64, d: nat)
    requires d < groupSize + TWO64
    ensures d % TWO64 == groupSize <==> d == groupSize
  {
    if d < TWO64 { DivModUnique(0, TWO64, d); } else { DivModUnique(1, TWO64, d - TWO64); }
  }

  lemma OnlyOne(ds: seq<nat>, x: nat)
    requires Increasing(ds) && forall d :: d in ds ==> d == x
    ensures ds == if x in ds then [x] else []
  {
    if |ds| > 1 { TwoDiffer(ds, x); }
    assert |ds| == 1 ==> ds[0] in ds;
  }

  lemma TwoDiffer(ds: seq<nat>, x: nat)
    requires Increasing(ds) && |ds| > 1
    ensures exists d :: d in ds && d != x
  {
    assert ds[0] in ds && ds[1] in ds;
  }
}
