/** ShuffleGenerator of src/Common/ShuffleGenerator.h: a sparse Fisher-Yates shuffle drawn one value at a time. */
module Shuffle {
  import opened Words

  // ----- the dense shuffle -----

  /** The values 0..n-1 in order. */
  function Identity(n: nat): (p: seq<nat>)
    ensures |p| == n && forall i :: 0 <= i < n ==> p[i] == i
  {
    seq(n, i => i)
  }

  /** Drawing position c from the live values moves the last of them into its place. */
  function Remove(live: seq<nat>, c: nat): (rest: seq<nat>)
    requires c < |live|
    ensures |rest| == |live| - 1
  {
    live[c := live[|live| - 1]][..|live| - 1]
  }

  /** In-range choices: the k-th is below the number of values left. */
  predicate InRange(n: nat, choices: seq<nat>)
  {
    |choices| <= n && forall k :: 0 <= k < |choices| ==> choices[k] < n - k
  }

  function Drawn(live: seq<nat>, choices: seq<nat>): (out: seq<nat>)
    requires InRange(|live|, choices)
    ensures |out| == |choices|
    decreases |choices|
  {
    if choices == [] then []
    else
      assert forall k :: 0 <= k < |choices[1..]| ==> choices[1..][k] == choices[k + 1];
      [live[choices[0]]] + Drawn(Remove(live, choices[0]), choices[1..])
  }

  function Left(live: seq<nat>, choices: seq<nat>): (rest: seq<nat>)
    requires InRange(|live|, choices)
    ensures |rest| == |live| - |choices|
    decreases |choices|
  {
    if choices == [] then live
    else
      assert forall k :: 0 <= k < |choices[1..]| ==> choices[1..][k] == choices[k + 1];
      Left(Remove(live, choices[0]), choices[1..])
  }

  /** Four draws from 0, 1, 2, 3 that the other laws do not tell apart from a shuffle that closes the gap. */
  lemma DrawnExample()
    ensures Drawn(Identity(4), [1, 0, 1, 0]) == [1, 0, 3, 2]
  {
    var choices := [1, 0, 1, 0];
    assert Identity(4) == [0, 1, 2, 3] && Remove([0, 1, 2, 3], 1) == [0, 3, 2];
    assert Remove([0, 3, 2], 0) == [2, 3] && Remove([2, 3], 1) == [2] && Remove([2], 0) == [];
    assert choices[1..] == [0, 1, 0] && choices[1..][1..] == [1, 0] && choices[1..][1..][1..] == [0];
    assert Drawn([2], [0]) == [2] by { assert [0][1..] == []; }
    assert Drawn([2, 3], [1, 0]) == [3, 2] by { assert [1, 0][1..] == [0]; }
    assert Drawn([0, 3, 2], [0, 1, 0]) == [0, 3, 2] by { assert [0, 1, 0][1..] == [1, 0]; }
  }

  lemma RemoveMultiset(live: seq<nat>, c: nat)
    requires c < |live|
    ensures multiset(live) == multiset{live[c]} + multiset(Remove(live, c))
  {
    var n := |live| - 1;
    var init := live[..n];
    assert live == init + [live[n]];
    if c == n {
      assert Remove(live, c) == init;
    } else {
      assert Remove(live, c) == init[c := live[n]];
      assert live[c] == init[c];
      assert multiset(init[c := live[n]]) == multiset(init) - multiset{live[c]} + multiset{live[n]};
    }
  }

  /** The emitted values and the live ones always share out the values among them. */
  lemma {:induction false} Partition(live: seq<nat>, choices: seq<nat>)
    requires InRange(|live|, choices)
    ensures multiset(Drawn(live, choices)) + multiset(Left(live, choices)) == multiset(live)
    decreases |choices|
  {
    if choices == [] {
    } else {
      var c, rest := choices[0], choices[1..];
      assert forall k :: 0 <= k < |rest| ==> rest[k] == choices[k + 1];
      RemoveMultiset(live, c);
      Partition(Remove(live, c), rest);
    }
  }

  /** Drawing everything yields a permutation of the values. */
  lemma Permutation(n: nat, choices: seq<nat>)
    requires InRange(n, choices) && |choices| == n
    ensures multiset(Drawn(Identity(n), choices)) == multiset(Identity(n))
  {
    Partition(Identity(n), choices);
    assert Left(Identity(n), choices) == [];
  }

  predicate Distinct(p: seq<nat>)
  {
    forall i, j :: 0 <= i < j < |p| ==> p[i] != p[j]
  }

  lemma RemoveDistinct(live: seq<nat>, c: nat)
    requires c < |live| && Distinct(live)
    ensures Distinct(Remove(live, c)) && live[c] !in Remove(live, c)
  {
  }

  /** Different choices give different outputs. */
  lemma {:induction false} Injective(live: seq<nat>, a: seq<nat>, b: seq<nat>)
    requires Distinct(live) && InRange(|live|, a) && InRange(|live|, b) && |a| == |b|
    requires Drawn(live, a) == Drawn(live, b)
    ensures a == b
    decreases |a|
  {
    if a == [] {
    } else {
      var ra, rb := a[1..], b[1..];
      assert forall k :: 0 <= k < |ra| ==> ra[k] == a[k + 1];
      assert forall k :: 0 <= k < |rb| ==> rb[k] == b[k + 1];
      assert Drawn(live, a)[0] == live[a[0]] && Drawn(live, b)[0] == live[b[0]];
      assert Drawn(live, a)[1..] == Drawn(Remove(live, a[0]), ra);
      assert Drawn(live, b)[1..] == Drawn(Remove(live, b[0]), rb);
      assert a[0] == b[0];
      RemoveDistinct(live, a[0]);
      Injective(Remove(live, a[0]), ra, rb);
      assert a == [a[0]] + ra && b == [b[0]] + rb;
    }
  }

  /** Every arrangement of the live values is drawn by some choices. */
  lemma {:induction false} Surjective(live: seq<nat>, out: seq<nat>) returns (choices: seq<nat>)
    requires multiset(live) == multiset(out)
    ensures |choices| == |live| && InRange(|live|, choices) && Drawn(live, choices) == out
    decreases |out|
  {
    assert |live| == |multiset(live)| == |multiset(out)| == |out|;
    if out == [] {
      choices := [];
    } else {
      hide Remove, Drawn;
      assert out == [out[0]] + out[1..];
      assert out[0] in multiset(live);
      var c: nat :| c < |live| && live[c] == out[0];
      RemoveMultiset(live, c);
      assert multiset(out) == multiset{out[0]} + multiset(out[1..]);
      assert multiset(Remove(live, c)) == multiset(live) - multiset{out[0]};
      var rest := Surjective(Remove(live, c), out[1..]);
      choices := [c] + rest;
      DrawnFirst(live, c, rest);
    }
  }

  lemma DrawnFirst(live: seq<nat>, c: nat, rest: seq<nat>)
    requires c < |live| && InRange(|live| - 1, rest)
    ensures InRange(|live|, [c] + rest) && Drawn(live, [c] + rest) == [live[c]] + Drawn(Remove(live, c), rest)
  {
    hide Remove;
    assert ([c] + rest)[1..] == rest;
  }

  lemma {:induction false} IdentityDistinct(n: nat)
    ensures Distinct(Identity(n))
  {
  }

  /** Permutations and full sequences of in-range choices correspond one to one. */
  lemma ExactlyOne(n: nat, out: seq<nat>) returns (choices: seq<nat>)
    requires multiset(out) == multiset(Identity(n))
    ensures |choices| == n && InRange(n, choices) && Drawn(Identity(n), choices) == out
    ensures forall other :: |other| == n && InRange(n, other) && Drawn(Identity(n), other) == out ==> other == choices
  {
    choices := Surjective(Identity(n), out);
    IdentityDistinct(n);
    forall other | |other| == n && InRange(n, other) && Drawn(Identity(n), other) == out ensures other == choices {
      Injective(Identity(n), other, choices);
    }
  }

  // ----- the sparse generator -----

  /** What a position of the dense array would hold: positions that were never written hold themselves. */
  function Slot(selected: map<nat, nat>, i: nat): nat
  {
    if i in selected then selected[i] else i
  }

  function Prefix(selected: map<nat, nat>, count: nat): (p: seq<nat>)
    ensures |p| == count && forall i :: 0 <= i < count ==> p[i] == Slot(selected, i)
  {
    seq(count, i requires 0 <= i < count => Slot(selected, i))
  }

  class Generator {
    const n: nat
    var count: nat
    var selected: map<nat, nat>
    ghost var choices: seq<nat>  // drawn since the last reset

    /** The live prefix of the array the map stands for. */
    ghost function Live(): (p: seq<nat>)
      reads this
    {
      Prefix(selected, count)
    }

    ghost predicate Valid()
      reads this
    {
      InRange(n, choices) && count == n - |choices| && Live() == Left(Identity(n), choices)
    }

    constructor (n: nat)
      ensures Valid() && this.n == n && choices == []
    {
      this.n, count, selected, choices := n, n, map[], [];
    }

    method Reset()
      requires Valid()
      modifies this
      ensures Valid() && choices == []
    {
      count := n;
      selected := map[];
      choices := [];
    }

    /** One call; `choice` is what the uniform distribution over 0..count-1 returns, None the thrown error. */
    method Next(choice: nat) returns (r: Option<nat>)
      requires Valid() && (count > 0 ==> choice < count)
      modifies this
      ensures Valid()
      ensures r.None? <==> old(count) == 0
      ensures r.None? ==> choices == old(choices)
      ensures r.Some? ==> choices == old(choices) + [choice] &&
                          Drawn(Identity(n), choices) == Drawn(Identity(n), old(choices)) + [r.value]
    {
      if count == 0 {
        return None;
      }
      ghost var live := Live();
      count := count - 1;
      var rval := if count in selected then selected[count] else count;
      var value := choice;
      if choice in selected {
        value := selected[choice];
        selected := selected[choice := rval];
      } else {
        selected := selected[choice := rval];
      }
      assert value == live[choice] && rval == live[count];
      assert Live() == Remove(live, choice);
      OneMore(Identity(n), choices, choice);
      choices := choices + [choice];
      r := Some(value);
    }
  }

  /** Choosing once more from what is left. */
  lemma {:induction false} OneMore(live: seq<nat>, choices: seq<nat>, c: nat)
    requires InRange(|live|, choices) && c < |live| - |choices|
    ensures InRange(|live|, choices + [c])
    ensures Left(live, choices + [c]) == Remove(Left(live, choices), c)
    ensures Drawn(live, choices + [c]) == Drawn(live, choices) + [Left(live, choices)[c]]
    decreases |choices|
  {
    hide Remove;
    var more := choices + [c];
    if choices == [] {
      assert more == [c] && more[1..] == [];
    } else {
      var rest := choices[1..];
      assert forall k :: 0 <= k < |rest| ==> rest[k] == choices[k + 1];
      OneMore(Remove(live, choices[0]), rest, c);
      assert more[1..] == rest + [c] && more[0] == choices[0];
    }
  }
}
