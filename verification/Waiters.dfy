/** The list of waiting contexts that src/System/Event.cpp and src/System/Latch.cpp thread through stack frames. */
module Waiters {
  /** An execution context of the dispatcher. */
  type Context = nat

  /** EventWaiter and LatchWaiter: a record on the stack of the context that waits. */
  class Waiter {
    const context: Context
    var next: Waiter?

    constructor (context: Context)
      ensures this.context == context && next == null
    {
      this.context := context;
      next := null;
    }
  }

  /** Contexts handed over to run again, oldest first. */
  class Dispatcher {
    var ready: seq<Context>

    method PushContext(c: Context)
      modifies this
      ensures ready == old(ready) + [c]
    {
      ready := ready + [c];
    }
  }

  function Contexts(ws: seq<Waiter>): (cs: seq<Context>)
    ensures |cs| == |ws|
  {
    seq(|ws|, i requires 0 <= i < |ws| => ws[i].context)
  }

  /** The contexts of the waits among the actions, in order. */
  function Waits<A>(actions: seq<A>, waitOf: A -> seq<Context>): seq<Context>
  {
    if actions == [] then [] else Waits(actions[..|actions| - 1], waitOf) + waitOf(actions[|actions| - 1])
  }

  lemma WaitsNone<A>(waitOf: A -> seq<Context>)
    ensures Waits([], waitOf) == []
  {
  }

  lemma WaitsStep<A>(actions: seq<A>, waitOf: A -> seq<Context>, k: nat)
    requires k < |actions|
    ensures var n := |actions| - 1; Waits(actions[k..], waitOf) == Waits(actions[..n][k..], waitOf) + waitOf(actions[n])
  {
    var n := |actions| - 1;
    assert actions[k..][..n - k] == actions[..n][k..];
  }

  lemma ContextsAppend(ws: seq<Waiter>, w: Waiter)
    ensures Contexts(ws + [w]) == Contexts(ws) + [w.context]
  {
  }

  lemma ContextsStep(ws: seq<Waiter>, k: nat)
    requires k < |ws|
    ensures ws[..k + 1] == ws[..k] + [ws[k]]
    ensures Contexts(ws[..k + 1]) == Contexts(ws[..k]) + [ws[k].context]
  {
  }

  /** The pointers first and last, and the records they should lead through. */
  class WaiterList {
    var first: Waiter?
    var last: Waiter?
    ghost var list: seq<Waiter>

    /** The record in place i, null past the end. */
    ghost function At(i: nat): Waiter?
      reads this
    {
      if i < |list| then list[i] else null
    }

    /** Following next from first visits exactly the list and ends at last. */
    ghost predicate Chain()
      reads this, list
    {
      (forall i, j :: 0 <= i < j < |list| ==> list[i] != list[j]) &&
      first == At(0) &&
      (list != [] ==> last == list[|list| - 1]) &&
      (forall i :: 0 <= i < |list| ==> list[i].next == At(i + 1))
    }

    constructor ()
      ensures Chain() && list == []
    {
      first, last, list := null, null, [];
    }

    method Reset()
      modifies this
      ensures Chain() && list == []
    {
      first, list := null, [];
    }

    /** The tail of wait(): only the last record, whose frame is still there, is written to. */
    method Append(w: Waiter, ghost frames: set<Waiter>)
      requires Chain() && w !in list && w.next == null
      requires forall x :: x in list ==> x in frames
      modifies this, frames
      ensures Chain() && list == old(list) + [w]
    {
      if first != null {
        assert last in frames;
        last.next := w;
      } else {
        first := w;
      }
      last := w;
      list := list + [w];
    }

    /** The loop of set() and decrease(): every record it visits belongs to a frame that has not resumed. */
    method PushAll(d: Dispatcher, ghost frames: set<Waiter>) returns (ghost visited: seq<Waiter>)
      requires Chain() && forall x :: x in list ==> x in frames
      modifies d
      ensures d.ready == old(d.ready) + Contexts(list)
      ensures visited == list && forall x :: x in visited ==> x in frames
    {
      var waiter := first;
      ghost var k := 0;
      visited := [];
      while waiter != null
        invariant 0 <= k <= |list| && Chain()
        invariant waiter == At(k)
        invariant d.ready == old(d.ready) + Contexts(list[..k]) && visited == list[..k]
        decreases |list| - k
      {
        visited := visited + [waiter];
        assert waiter == list[k];
        assert list[k].next == At(k + 1);
        d.PushContext(waiter.context);
        ContextsStep(list, k);
        assert Chain();
        waiter := waiter.next;
        k := k + 1;
      }
      assert list[..k] == list;
    }
  }
}
