/** BLAKE-256 messages given to blake256_update of src/crypto/blake256.c in any number of pieces. */
module BlakePieces {
  import opened Words
  import opened Blake256

  function Updates(v: View, pieces: seq<seq<byte>>): (w: View)
    requires Ok(v)
    ensures Ok(w)
  {
    if pieces == [] then v else Updated(Updates(v, pieces[..|pieces| - 1]), pieces[|pieces| - 1])
  }

  function Lengths(pieces: seq<seq<byte>>): (ns: seq<nat>)
    ensures |ns| == |pieces|
  {
    seq(|pieces|, i requires 0 <= i < |pieces| => |pieces[i]|)
  }

  function Total(ns: seq<nat>): nat
  {
    if ns == [] then 0 else Total(ns[..|ns| - 1]) + ns[|ns| - 1]
  }

  /** Every piece joins what the pieces before it leave in the buffer. */
  predicate AllJoin(ns: seq<nat>)
  {
    ns == [] || (AllJoin(ns[..|ns| - 1]) && Joins(Total(ns[..|ns| - 1]) % BLOCK, ns[|ns| - 1]))
  }

  lemma LengthsInit(pieces: seq<seq<byte>>)
    requires pieces != []
    ensures Lengths(pieces)[..|pieces| - 1] == Lengths(pieces[..|pieces| - 1])
  {
  }

  lemma {:induction false} ConcatLength(pieces: seq<seq<byte>>)
    ensures |Concat(pieces)| == Total(Lengths(pieces))
    decreases |pieces|
  {
    if pieces == [] {
    } else {
      LengthsInit(pieces);
      ConcatLength(pieces[..|pieces| - 1]);
    }
  }

  // ----- what an update makes of its piece -----

  /**
    The message after an update.  A piece that does not join loses the buffered bytes if it has no rest, and else its
    whole blocks go in front of them.
   */
  function Taken(msg: seq<byte>, data: seq<byte>): (r: seq<byte>)
    ensures |r| <= |msg| + |data|
  {
    var left, n := |msg| % BLOCK, |data| % BLOCK;
    if Joins(left, |data|) then msg + data
    else
      var body, tail := msg[..|msg| - left], msg[|msg| - left..];
      if n == 0 then body + data else body + data[..|data| - n] + tail + data[|data| - n..]
  }

  /** Without its buffered bytes a state holds the whole blocks of its message. */
  lemma Rewound(v: View, body: seq<byte>, tail: seq<byte>)
    requires Holds(v, body + tail) && |tail| == v.left && |body| % BLOCK == 0
    ensures Holds(v.(left := 0), body)
  {
    hide BlockCalls;
    BlocksBefore(body, tail);
    CallsExtend(body, tail, |body| / BLOCK, |body|, |body + tail|);
    assert v.buf[..0] == body[|body|..];
  }

  lemma BlocksBefore(body: seq<byte>, tail: seq<byte>)
    requires |body| % BLOCK == 0 && |tail| < BLOCK
    ensures |body + tail| / BLOCK == |body| / BLOCK && |body + tail| % BLOCK == |tail|
  {
  }

  /** Buffered bytes can be put back behind whole blocks. */
  lemma Reattached(w: View, body: seq<byte>, tail: seq<byte>, left: nat)
    requires Holds(w, body) && w.left == 0 && |tail| == left < BLOCK && w.buf[..left] == tail
    ensures Holds(w.(left := left), body + tail)
  {
    hide BlockCalls;
    BlocksBefore(body, tail);
    CallsExtend(body, tail, |body| / BLOCK, |body|, |body + tail|);
    assert (body + tail)[|body|..] == tail;
  }

  /** The loop takes the whole blocks whatever is buffered; the rest goes behind it. */
  lemma {:induction false} AbsorbedSplit(v: View, data: seq<byte>)
    requires Ok(v) && v.left + |data| % BLOCK < BLOCK
    ensures
      var n := |data| % BLOCK;
      var w := Absorbed(v.(left := 0), data[..|data| - n]);
      w.left == 0 && w.buf == v.buf &&
      Absorbed(v, data) ==
      if n == 0 then w else Stored(w.(left := v.left), data[|data| - n..]).(left := v.left + n)
    decreases |data|
  {
    hide Absorbed, Bumped, Stored;
    var n, v0 := |data| % BLOCK, v.(left := 0);
    var whole := data[..|data| - n];
    AbsorbedUnfold(v, data);
    AbsorbedUnfold(v0, whole);
    if |data| < BLOCK {
      assert whole == [] && data[|data| - n..] == data;
      assert v0.(left := v.left) == v;
    } else {
      BumpedLeft(v);
      BumpFrame(v);
      assert whole[..BLOCK] == data[..BLOCK] && whole[BLOCK..] == data[BLOCK..][..|data| - BLOCK - n];
      assert data[BLOCK..][|data| - BLOCK - n..] == data[|data| - n..];
      AbsorbedSplit(Compressed(Bumped(v), data[..BLOCK]), data[BLOCK..]);
    }
  }

  lemma BumpedLeft(v: View)
    ensures Bumped(v.(left := 0)) == Bumped(v).(left := 0)
  {
  }

  /** An update of any length leaves the state of what it takes. */
  lemma TakenHolds(v: View, msg: seq<byte>, data: seq<byte>)
    requires Holds(v, msg) && 8 * (|msg| + |data|) < TWO64
    ensures Holds(Updated(v, data), Taken(msg, data))
  {
    hide Holds, Absorbed, Stored, BlockCalls;
    HoldsLeft(v, msg);
    var left, n := v.left, |data| % BLOCK;
    if Joins(left, |data|) {
      UpdateHolds(v, msg, data);
    } else {
      var body, tail, whole := msg[..|msg| - left], msg[|msg| - left..], data[..|data| - n];
      assert body + tail == msg;
      Rewound(v, body, tail);
      AbsorbAligned(v.(left := 0), body, whole);
      AbsorbedSplit(v, data);
      if n == 0 {
        assert whole == data;
      } else {
        var w := Absorbed(v.(left := 0), whole);
        BufferedTail(v, body, tail);
        Reattached(w, body + whole, tail, left);
        AppendStep(w.(left := left), body + whole + tail, data[|data| - n..]);
      }
    }
  }

  lemma BufferedTail(v: View, body: seq<byte>, tail: seq<byte>)
    requires Holds(v, body + tail) && |tail| == v.left
    ensures v.buf[..v.left] == tail
  {
    hide BlockCalls;
    assert (body + tail)[|body + tail| - v.left..] == tail;
  }

  /** The message that a fresh state ends up with. */
  function TakenFrom(pieces: seq<seq<byte>>): seq<byte>
  {
    if pieces == [] then [] else Taken(TakenFrom(pieces[..|pieces| - 1]), pieces[|pieces| - 1])
  }

  /** Any number of updates of any lengths leaves the state of what they take. */
  lemma {:induction false} UpdatesTaken(v: View, pieces: seq<seq<byte>>)
    requires Fresh(v) && 8 * Total(Lengths(pieces)) < TWO64
    ensures Holds(Updates(v, pieces), TakenFrom(pieces)) && |TakenFrom(pieces)| <= Total(Lengths(pieces))
    decreases |pieces|
  {
    hide Holds, Updated, Taken;
    if pieces == [] {
      FreshHolds(v);
    } else {
      var before, last := pieces[..|pieces| - 1], pieces[|pieces| - 1];
      LengthsInit(pieces);
      UpdatesTaken(v, before);
      TakenHolds(Updates(v, before), TakenFrom(before), last);
    }
  }

  /** Pieces that all join are taken whole. */
  lemma {:induction false} JoinedTaken(pieces: seq<seq<byte>>)
    requires AllJoin(Lengths(pieces))
    ensures TakenFrom(pieces) == Concat(pieces)
    decreases |pieces|
  {
    hide Joins;
    if pieces == [] {
    } else {
      LengthsInit(pieces);
      ConcatLength(pieces[..|pieces| - 1]);
      JoinedTaken(pieces[..|pieces| - 1]);
    }
  }

  lemma UpdatesHold(v: View, pieces: seq<seq<byte>>)
    requires Fresh(v) && AllJoin(Lengths(pieces)) && 8 * Total(Lengths(pieces)) < TWO64
    ensures Holds(Updates(v, pieces), Concat(pieces))
  {
    hide Holds, Updates, TakenFrom, Concat, AllJoin;
    UpdatesTaken(v, pieces);
    JoinedTaken(pieces);
  }

  /** A state holds one message only. */
  lemma HeldOnce(v: View, x: seq<byte>, y: seq<byte>)
    requires Holds(v, x) && Holds(v, y)
    ensures x == y
  {
    hide BlockCalls;
    HeldSize(v, x);
    HeldSize(v, y);
    forall i | 0 <= i < |x| ensures x[i] == y[i] { HeldByte(v, x, y, i); }
  }

  lemma HeldByte(v: View, x: seq<byte>, y: seq<byte>, i: nat)
    requires Holds(v, x) && Holds(v, y) && |x| == |y| && i < |x|
    ensures x[i] == y[i]
  {
    hide BlockCalls;
    var k, n := i / BLOCK, |x| / BLOCK;
    if k < n {
      CallAt(x, n, |x|, k);
      CallAt(y, n, |y|, k);
      assert x[i] == x[BLOCK * k..BLOCK * (k + 1)][i - BLOCK * k];
      assert y[i] == y[BLOCK * k..BLOCK * (k + 1)][i - BLOCK * k];
    } else {
      var j := i - (|x| - v.left);
      assert x[i] == x[|x| - v.left..][j] && y[i] == y[|y| - v.left..][j];
    }
  }

  /** Given pieces are absorbed as their concatenation if and only if they are taken as it. */
  lemma UpdatesHoldIff(v: View, pieces: seq<seq<byte>>)
    requires Fresh(v) && 8 * Total(Lengths(pieces)) < TWO64
    ensures Holds(Updates(v, pieces), Concat(pieces)) <==> TakenFrom(pieces) == Concat(pieces)
  {
    hide Holds, Updates, TakenFrom, Concat;
    UpdatesTaken(v, pieces);
    if Holds(Updates(v, pieces), Concat(pieces)) {
      HeldOnce(Updates(v, pieces), TakenFrom(pieces), Concat(pieces));
    }
  }

  // ----- what cannot be repaired -----

  /** A block was compressed that is not the message's. */
  predicate Overtaken(v: View, msg: seq<byte>, k: nat)
  {
    k < |v.calls| && BLOCK * (k + 1) <= |msg| && v.calls[k].block != msg[BLOCK * k..BLOCK * (k + 1)]
  }

  /** Bytes were dropped or overtaken. */
  ghost predicate Broken(v: View, msg: seq<byte>)
  {
    BLOCK * |v.calls| + v.left < |msg| || exists k: nat :: Overtaken(v, msg, k)
  }

  lemma BrokenNotHeld(v: View, msg: seq<byte>)
    requires Broken(v, msg)
    ensures !Holds(v, msg)
  {
    hide BlockCalls;
    if Holds(v, msg) {
      HeldSize(v, msg);
      var k: nat :| Overtaken(v, msg, k);
      CallAt(msg, |msg| / BLOCK, |msg|, k);
    }
  }

  lemma HeldSize(v: View, msg: seq<byte>)
    requires Holds(v, msg)
    ensures BLOCK * |v.calls| + v.left == |msg|
  {
    hide BlockCalls;
  }

  lemma {:induction false} AbsorbedGrows(v: View, data: seq<byte>)
    requires Ok(v) && v.left + |data| % BLOCK < BLOCK
    ensures var w := Absorbed(v, data);
      v.calls <= w.calls && BLOCK * |w.calls| + w.left <= BLOCK * |v.calls| + v.left + |data|
    decreases |data|
  {
    hide Absorbed, Bumped, Stored;
    AbsorbedUnfold(v, data);
    if |data| >= BLOCK {
      BumpFrame(v);
      AbsorbedGrows(Compressed(Bumped(v), data[..BLOCK]), data[BLOCK..]);
    } else if |data| > 0 {
      StoredFrame(v, data);
    }
  }

  /** An update adds compressions at the end, and no more bytes than it is given. */
  lemma UpdatedGrows(v: View, data: seq<byte>)
    requires Ok(v)
    ensures var w := Updated(v, data);
      v.calls <= w.calls && BLOCK * |w.calls| + w.left <= BLOCK * |v.calls| + v.left + |data|
  {
    hide Absorbed, Bumped, Stored;
    var fill := BLOCK - v.left;
    if v.left > 0 && |data| % BLOCK >= fill {
      var full := Stored(v, data[..fill]);
      StoredFrame(v, data[..fill]);
      BumpFrame(full);
      AbsorbedGrows(Compressed(Bumped(full), full.buf).(left := 0), data[fill..]);
    } else {
      AbsorbedGrows(v, data);
    }
  }

  lemma BrokenStays(v: View, msg: seq<byte>, data: seq<byte>)
    requires Ok(v) && Broken(v, msg)
    ensures Broken(Updated(v, data), msg + data)
  {
    hide Updated;
    UpdatedGrows(v, data);
    if BLOCK * |v.calls| + v.left >= |msg| {
      var k: nat :| Overtaken(v, msg, k);
      assert (msg + data)[BLOCK * k..BLOCK * (k + 1)] == msg[BLOCK * k..BLOCK * (k + 1)];
      assert Overtaken(Updated(v, data), msg + data, k);
    }
  }

  function Ones(n: nat): (s: seq<byte>)
    ensures |s| == n
  {
    seq(n, _ => 1)
  }

  /** A piece of ones that does not join a message of zeros breaks it. */
  lemma NotJoinedBreaks(v: View, msg: seq<byte>, n: nat)
    requires Holds(v, msg) && msg == Zeros(|msg|) && !Joins(v.left, n)
    ensures Broken(Updated(v, Ones(n)), msg + Ones(n))
  {
    hide BlockCalls;
    HeldSize(v, msg);
    var data, k := Ones(n), |v.calls|;
    if n < BLOCK {
      assert data == [] && Updated(v, data) == v.(left := 0);
    } else {
      hide Updated;
      NewCall(v, data);
      assert (msg + data)[BLOCK * k..BLOCK * (k + 1)][0] == msg[BLOCK * k] == 0;
      assert data[..BLOCK][0] == 1;
      assert Overtaken(Updated(v, data), msg + data, k);
    }
  }

  // ----- the exact condition, for one piece and for many -----

  /** Any message and piece of these lengths, absorbed in the source's way. */
  ghost predicate AlwaysJoined(m: nat, n: nat)
  {
    forall v: View, msg: seq<byte>, data: seq<byte> ::
      |msg| == m && |data| == n && Holds(v, msg) ==> Holds(Updated(v, data), msg + data)
  }

  /**
    Update is right for all contents exactly for the lengths that join.  Otherwise the buffered bytes are dropped,
    or whole blocks of the piece overtake them.
   */
  lemma UpdateExact(m: nat, n: nat)
    requires 8 * (m + n) < TWO64
    ensures AlwaysJoined(m, n) <==> Joins(m % BLOCK, n)
  {
    hide BlockCalls, Updated;
    if Joins(m % BLOCK, n) {
      forall v: View, msg: seq<byte>, data: seq<byte> | |msg| == m && |data| == n && Holds(v, msg)
        ensures Holds(Updated(v, data), msg + data)
      {
        HoldsLeft(v, msg);
        UpdateHolds(v, msg, data);
      }
    } else {
      var msg, data, v := Zeros(m), Ones(n), ZeroState(m);
      NotJoinedBreaks(v, msg, n);
      BrokenNotHeld(Updated(v, data), msg + data);
    }
  }

  /** A state that holds m zero bytes. */
  ghost function ZeroState(m: nat): (v: View)
    requires 8 * m < TWO64
    ensures Holds(v, Zeros(m))
  {
    var bits := 8 * (m - m % BLOCK);
    assert bits == (bits / TWO32) * TWO32 + bits % TWO32;
    assert Zeros(m)[m - m % BLOCK..] == Zeros(BLOCK)[..m % BLOCK];
    View(bits % TWO32, bits / TWO32, m % BLOCK, false, Zeros(BLOCK), BlockCalls(Zeros(m), m / BLOCK, m))
  }

  function FreshView(): (v: View)
  {
    View(0, 0, 0, false, Zeros(BLOCK), [])
  }

  function ZeroPieces(ns: seq<nat>): (pieces: seq<seq<byte>>)
    ensures |pieces| == |ns| && Lengths(pieces) == ns
  {
    seq(|ns|, i requires 0 <= i < |ns| => Zeros(ns[i]))
  }

  lemma {:induction false} ZerosConcat(ns: seq<nat>)
    ensures Concat(ZeroPieces(ns)) == Zeros(Total(ns))
    decreases |ns|
  {
    if ns == [] {
    } else {
      ZerosConcat(ns[..|ns| - 1]);
      assert ZeroPieces(ns)[..|ns| - 1] == ZeroPieces(ns[..|ns| - 1]);
    }
  }

  /** Contents for which pieces of these lengths break the state: ones in the first piece that does not join. */
  lemma {:induction false} BreakingPieces(ns: seq<nat>) returns (pieces: seq<seq<byte>>)
    requires !AllJoin(ns) && 8 * Total(ns) < TWO64
    ensures Lengths(pieces) == ns && Broken(Updates(FreshView(), pieces), Concat(pieces))
    decreases |ns|
  {
    hide Updated, Broken, Joins, Holds, Concat;
    var before, n := ns[..|ns| - 1], ns[|ns| - 1];
    var head, last;
    if AllJoin(before) {
      head, last := ZeroPieces(before), Ones(n);
      ZerosConcat(before);
      UpdatesHold(FreshView(), head);
      HoldsLeft(Updates(FreshView(), head), Concat(head));
      NotJoinedBreaks(Updates(FreshView(), head), Concat(head), n);
    } else {
      head := BreakingPieces(before);
      last := Zeros(n);
      BrokenStays(Updates(FreshView(), head), Concat(head), last);
    }
    pieces := head + [last];
    assert pieces[..|head|] == head;
    ConcatAppend(head, last);
    assert Lengths(pieces) == Lengths(head) + [n] == ns;
  }

  lemma ConcatAppend(pieces: seq<seq<byte>>, last: seq<byte>)
    ensures Concat(pieces + [last]) == Concat(pieces) + last
  {
    assert (pieces + [last])[..|pieces|] == pieces;
  }

  /** Any pieces of these lengths, given to a fresh state. */
  ghost predicate AlwaysHeld(ns: seq<nat>)
  {
    forall v: View, pieces: seq<seq<byte>> ::
      Fresh(v) && Lengths(pieces) == ns ==> Holds(Updates(v, pieces), Concat(pieces))
  }

  /** Updates in pieces absorb the whole message, for all contents, if and only if every piece joins. */
  lemma UpdatesExact(ns: seq<nat>)
    requires 8 * Total(ns) < TWO64
    ensures AlwaysHeld(ns) <==> AllJoin(ns)
  {
    hide Holds, Updates, Broken, AllJoin, Concat;
    if AllJoin(ns) {
      forall v: View, pieces: seq<seq<byte>> | Fresh(v) && Lengths(pieces) == ns
        ensures Holds(Updates(v, pieces), Concat(pieces))
      {
        UpdatesHold(v, pieces);
      }
    } else {
      var pieces := BreakingPieces(ns);
      BrokenNotHeld(Updates(FreshView(), pieces), Concat(pieces));
      assert Fresh(FreshView());
    }
  }

  /** Any number of updates and final: the digest of what was taken, which is all of it when every piece joins. */
  method HashPieces<H(!new)>(core: Core<H>, pieces: seq<seq<byte>>) returns (out: seq<byte>)
    requires 8 * Total(Lengths(pieces)) < TWO64
    ensures out == Digest(core, TakenFrom(pieces))
    ensures AllJoin(Lengths(pieces)) ==> out == Digest(core, Concat(pieces))
  {
    hide Holds, Updated, Finished, Chain, HashCalls, Joins, AllJoin, TakenFrom;
    var s := Started(core);
    ghost var v := s.Now();
    for k := 0 to |pieces|
      invariant fresh(s) && fresh(s.buf) && s.Valid() && s.core == core
      invariant Ok(v) && s.Now() == Updates(v, pieces[..k])
    {
      s.Update(pieces[k]);
      assert pieces[..k + 1][..k] == pieces[..k];
    }
    assert pieces[..|pieces|] == pieces;
    UpdatesTaken(v, pieces);
    FinishedCalls(s.Now(), TakenFrom(pieces), 0x81, 0x01);
    if AllJoin(Lengths(pieces)) { JoinedTaken(pieces); }
    out := s.Finish(0x81, 0x01);
  }
}
