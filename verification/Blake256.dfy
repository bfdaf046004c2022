/** BLAKE-256 of src/crypto/blake256.c: buffering, padding and counters around an uninterpreted compression. */
module Blake256 {
  import opened Words
  import opened Positional

  const BLOCK: nat := 64

  /** One compression: its block and the bit counter it uses, None under the null-counter flag. */
  datatype Call = Call(block: seq<byte>, counter: Option<nat>)

  /**
    The state struct with byte lengths in place of bit lengths and, for the chaining value, the compressions that
    produced it.
   */
  datatype View = View(t0: u32, t1: u32, left: nat, nullt: bool, buf: seq<byte>, calls: seq<Call>)

  predicate Ok(v: View)
  {
    v.left < BLOCK && |v.buf| == BLOCK
  }

  ghost predicate Fresh(v: View)
  {
    Ok(v) && v.t0 == v.t1 == v.left == 0 && !v.nullt && v.calls == []
  }

  // ----- the functions of the source on views -----

  function Compressed(v: View, block: seq<byte>): View
  {
    v.(calls := v.calls + [Call(block, if v.nullt then None else Some(v.t1 * TWO32 + v.t0))])
  }

  /** t[0] += 512, carried into t[1] when it comes out as zero */
  function Bumped(v: View): View
  {
    var t0 := (v.t0 + 512) % TWO32;
    v.(t0 := t0, t1 := if t0 == 0 then (v.t1 + 1) % TWO32 else v.t1)
  }

  /** t[0] -= bits, which may wrap until the next bump undoes it */
  function Lowered(v: View, bits: nat): View
  {
    v.(t0 := (v.t0 - bits) % TWO32)
  }

  function Stored(v: View, data: seq<byte>): View
    requires Ok(v) && v.left + |data| <= BLOCK
  {
    v.(buf := v.buf[..v.left] + data + v.buf[v.left + |data|..])
  }

  /** The while loop and the copy of the rest. */
  function Absorbed(v: View, data: seq<byte>): (w: View)
    requires Ok(v) && v.left + |data| % BLOCK < BLOCK
    ensures Ok(w)
    decreases |data|
  {
    if |data| >= BLOCK then
      assert |data[BLOCK..]| % BLOCK == |data| % BLOCK;
      Absorbed(Compressed(Bumped(v), data[..BLOCK]), data[BLOCK..])
    else if |data| > 0 then Stored(v, data).(left := v.left + |data|)
    else v.(left := 0)
  }

  /** blake256_update: the length test looks at the length modulo the block size. */
  function Updated(v: View, data: seq<byte>): (w: View)
    requires Ok(v)
    ensures Ok(w)
  {
    var fill := BLOCK - v.left;
    if v.left > 0 && |data| % BLOCK >= fill then
      var full := Stored(v, data[..fill]);
      Absorbed(Compressed(Bumped(full), full.buf).(left := 0), data[fill..])
    else Absorbed(v, data)
  }

  /** The bytes of the message length: hi and lo of the counter with the buffered bits added to lo. */
  function LengthBytes(v: View): (s: seq<byte>)
    ensures |s| == 8
  {
    var lo := (v.t0 + 8 * v.left) % TWO32;
    var hi := if lo < 8 * v.left then (v.t1 + 1) % TWO32 else v.t1;
    BigEndian(hi, 4) + BigEndian(lo, 4)
  }

  /** The first n bytes of the padding table. */
  function PaddingTable(n: nat): (s: seq<byte>)
    requires 1 <= n <= BLOCK
    ensures |s| == n
  {
    [0x80] + Zeros(n - 1)
  }

  /** The padding when one byte of it fits in front of the length. */
  function PaddedByOne(v: View, pa: byte): (w: View)
    requires Ok(v)
    ensures Ok(w)
  {
    Updated(Lowered(v, 8), [pa])
  }

  /** The padding when at least two bytes of it fit; with nothing buffered the counter is switched off. */
  function PaddedInBlock(v: View, pb: byte): (w: View)
    requires Ok(v) && v.left < 55
    ensures Ok(w)
  {
    var v1 := v.(nullt := v.nullt || v.left == 0);
    var v2 := Updated(Lowered(v1, 8 * (55 - v.left)), PaddingTable(55 - v.left));
    Lowered(Updated(v2, [pb]), 8)
  }

  /** The padding when the length no longer fits in the block. */
  function PaddedOverBlock(v: View, pb: byte): (w: View)
    requires Ok(v) && v.left > 55
    ensures Ok(w)
  {
    var v1 := Updated(Lowered(v, 8 * (BLOCK - v.left)), PaddingTable(BLOCK - v.left));
    var v2 := Updated(Lowered(v1, 440), Zeros(55)).(nullt := true);
    Lowered(Updated(v2, [pb]), 8)
  }

  /** blake256_final_h up to the digest; pa and pb are the bytes that end the padding. */
  function Finished(v: View, pa: byte, pb: byte): (w: View)
    requires Ok(v)
  {
    var padded := if v.left == 55 then PaddedByOne(v, pa)
                  else if v.left < 55 then PaddedInBlock(v, pb)
                  else PaddedOverBlock(v, pb);
    Updated(Lowered(padded, 64), LengthBytes(v))
  }

  // ----- the padded message of section 2.1.3 of the BLAKE proposal -----

  /** Bytes between the message and the length: up to 56 modulo 64, at least one. */
  function PadLength(n: nat): (p: nat)
    ensures 1 <= p <= BLOCK && (n + p) % BLOCK == 56
  {
    if n % BLOCK < 56 then 56 - n % BLOCK else 120 - n % BLOCK
  }

  function Pad(p: nat, pa: byte, pb: byte): (s: seq<byte>)
    requires p >= 1
    ensures |s| == p
  {
    if p == 1 then [pa] else [0x80] + Zeros(p - 2) + [pb]
  }

  function Padded(msg: seq<byte>, pa: byte, pb: byte): (s: seq<byte>)
    ensures |s| == |msg| + PadLength(|msg|) + 8
  {
    msg + Pad(PadLength(|msg|), pa, pb) + BigEndian(8 * |msg|, 8)
  }

  /** The counter of block i: the message bits up to its end, or none if it holds no message bit. */
  function CounterOf(i: nat, n: nat): Option<nat>
  {
    if BLOCK * i >= n then None
    else Some(if BLOCK * (i + 1) <= n then 512 * (i + 1) else 8 * n)
  }

  /** The first k blocks of s as compressions for a message of n bytes. */
  function BlockCalls(s: seq<byte>, k: nat, n: nat): (calls: seq<Call>)
    requires BLOCK * k <= |s|
    ensures |calls| == k
  {
    if k == 0 then []
    else BlockCalls(s, k - 1, n) + [Call(s[BLOCK * (k - 1)..BLOCK * k], CounterOf(k - 1, n))]
  }

  /** What the state is after absorbing msg. */
  ghost predicate Holds(v: View, msg: seq<byte>)
  {
    Ok(v) && !v.nullt && v.left == |msg| % BLOCK && v.buf[..v.left] == msg[|msg| - v.left..] &&
    v.t1 * TWO32 + v.t0 == 8 * (|msg| - v.left) &&
    v.calls == BlockCalls(msg, |msg| / BLOCK, |msg|)
  }

  // ----- update -----

  lemma BumpExact(v: View)
    requires v.t0 % 512 == 0 && v.t1 * TWO32 + v.t0 + 512 < TWO64
    ensures var w := Bumped(v); w.t1 * TWO32 + w.t0 == v.t1 * TWO32 + v.t0 + 512
  {
    if v.t0 + 512 < TWO32 {
      DivModUnique(0, TWO32, v.t0 + 512);
    } else {
      DivModUnique(1, TWO32, 0);
      DivModUnique(0, TWO32, v.t1 + 1);
    }
  }

  /** Full blocks keep their counter when the message goes on. */
  lemma {:induction false} CallsExtend(s: seq<byte>, x: seq<byte>, k: nat, n: nat, m: nat)
    requires BLOCK * k <= |s| && BLOCK * k <= n <= m
    ensures BlockCalls(s + x, k, m) == BlockCalls(s, k, n)
  {
    if k == 0 {
    } else {
      CallsExtend(s, x, k - 1, n, m);
      assert (s + x)[BLOCK * (k - 1)..BLOCK * k] == s[BLOCK * (k - 1)..BLOCK * k];
    }
  }

  /** A block that completes the message so far is compressed with the counter of its end. */
  lemma BlockDone(v: View, msg: seq<byte>, block: seq<byte>)
    requires v.calls == BlockCalls(msg, |msg| / BLOCK, |msg|) && !v.nullt
    requires |block| % BLOCK != 0 || |block| == BLOCK
    requires 0 < |block| && |msg| % BLOCK + |block| == BLOCK
    requires v.t1 * TWO32 + v.t0 == 8 * (|msg| + |block|)
    ensures var all := msg + block;
      Compressed(v, all[|all| - BLOCK..]).calls == BlockCalls(all, |all| / BLOCK, |all|)
  {
    hide BlockCalls;
    var all, k := msg + block, |msg| / BLOCK;
    assert |all| == BLOCK * (k + 1);
    DivModUnique(k + 1, BLOCK, 0);
    assert all[BLOCK * k..BLOCK * (k + 1)] == all[|all| - BLOCK..];
    CallsExtend(msg, block, k, |msg|, |all|);
    CallsUnfold(all, k + 1, |all|);
  }

  lemma CallsUnfold(s: seq<byte>, k: nat, n: nat)
    requires 0 < k && BLOCK * k <= |s|
    ensures BlockCalls(s, k, n) == BlockCalls(s, k - 1, n) + [Call(s[BLOCK * (k - 1)..BLOCK * k], CounterOf(k - 1, n))]
  {
  }

  lemma AlignedCounter(v: View, msg: seq<byte>)
    requires Holds(v, msg)
    ensures v.t0 % 512 == 0
  {
    hide BlockCalls;
    var k := |msg| / BLOCK;
    assert v.t0 == 512 * k - v.t1 * TWO32;
    assert v.t0 == 512 * (k - v.t1 * 0x80_0000);
  }

  lemma FillStep(v: View, msg: seq<byte>, d: seq<byte>)
    requires Holds(v, msg) && |d| == BLOCK - v.left && 8 * (|msg| + |d|) < TWO64
    ensures var full := Stored(v, d);
      Holds(Compressed(Bumped(full), full.buf).(left := 0), msg + d)
  {
    hide BlockCalls, Bumped;
    var full, all := Stored(v, d), msg + d;
    AlignedCounter(v, msg);
    BumpFrame(full);
    BumpExact(full);
    assert full.buf == all[|all| - BLOCK..];
    BlockDone(Bumped(full), msg, d);
  }

  lemma BumpFrame(v: View)
    ensures Bumped(v) == v.(t0 := Bumped(v).t0, t1 := Bumped(v).t1)
  {
  }

  lemma AppendStep(v: View, msg: seq<byte>, d: seq<byte>)
    requires Holds(v, msg) && v.left + |d| < BLOCK
    ensures Holds(Stored(v, d).(left := v.left + |d|), msg + d)
  {
    hide BlockCalls;
    var all := msg + d;
    CallsExtend(msg, d, |msg| / BLOCK, |msg|, |all|);
    assert |all| / BLOCK == |msg| / BLOCK && |all| % BLOCK == v.left + |d|;
    assert all[|all| - (v.left + |d|)..] == msg[|msg| - v.left..] + d;
  }

  lemma {:induction false} AbsorbAligned(v: View, msg: seq<byte>, data: seq<byte>)
    requires Holds(v, msg) && v.left == 0 && 8 * (|msg| + |data|) < TWO64
    ensures Holds(Absorbed(v, data), msg + data)
    decreases |data|
  {
    hide BlockCalls, Bumped, Compressed, Holds;
    if |data| >= BLOCK {
      var b, rest := data[..BLOCK], data[BLOCK..];
      WholeBlock(v, msg, b);
      AbsorbAligned(Compressed(Bumped(v), b), msg + b, rest);
      assert msg + b + rest == msg + data;
    } else if |data| > 0 {
      AppendStep(v, msg, data);
    } else {
      assert msg + data == msg;
      assert v.(left := 0) == v;
    }
  }

  lemma WholeBlock(v: View, msg: seq<byte>, b: seq<byte>)
    requires Holds(v, msg) && v.left == 0 && |b| == BLOCK && 8 * (|msg| + |b|) < TWO64
    ensures Holds(Compressed(Bumped(v), b), msg + b) && Compressed(Bumped(v), b).left == 0
  {
    hide BlockCalls, Bumped;
    AlignedCounter(v, msg);
    BumpFrame(v);
    BumpExact(v);
    assert (msg + b)[|msg + b| - BLOCK..] == b;
    BlockDone(Bumped(v), msg, b);
  }

  /** The lengths for which update joins a piece to what is buffered. */
  predicate Joins(left: nat, n: nat)
  {
    left == 0 || (0 < n && (n < BLOCK || n % BLOCK >= BLOCK - left))
  }

  lemma UpdateHolds(v: View, msg: seq<byte>, data: seq<byte>)
    requires Holds(v, msg) && Joins(v.left, |data|) && 8 * (|msg| + |data|) < TWO64
    ensures Holds(Updated(v, data), msg + data)
  {
    hide BlockCalls, Bumped, Compressed, Holds, Absorbed, Stored;
    HoldsLeft(v, msg);
    var fill := BLOCK - v.left;
    if v.left == 0 {
      AbsorbAligned(v, msg, data);
    } else if |data| % BLOCK >= fill {
      var d, rest := data[..fill], data[fill..];
      var full := Stored(v, d);
      FillStep(v, msg, d);
      AbsorbAligned(Compressed(Bumped(full), full.buf).(left := 0), msg + d, rest);
      assert msg + d + rest == msg + data;
    } else {
      AppendStep(v, msg, data);
      AbsorbShort(v, data);
    }
  }

  lemma HoldsLeft(v: View, msg: seq<byte>)
    requires Holds(v, msg)
    ensures Ok(v) && v.left == |msg| % BLOCK
  {
  }

  lemma AbsorbShort(v: View, data: seq<byte>)
    requires Ok(v) && 0 < |data| && v.left + |data| < BLOCK
    ensures Absorbed(v, data) == Stored(v, data).(left := v.left + |data|)
  {
  }

  lemma NewCall(v: View, data: seq<byte>)
    requires Ok(v) && !Joins(v.left, |data|) && |data| >= BLOCK
    ensures var w := Updated(v, data); |w.calls| > |v.calls| && w.calls[|v.calls|].block == data[..BLOCK]
  {
    hide Bumped;
    BumpFrame(v);
    AbsorbedUnfold(v, data);
    AbsorbedCalls(Compressed(Bumped(v), data[..BLOCK]), data[BLOCK..]);
  }

  lemma {:induction false} AbsorbedCalls(v: View, data: seq<byte>)
    requires Ok(v) && v.left + |data| % BLOCK < BLOCK
    ensures v.calls <= Absorbed(v, data).calls
    decreases |data|
  {
    if |data| >= BLOCK {
      AbsorbedCalls(Compressed(Bumped(v), data[..BLOCK]), data[BLOCK..]);
    }
  }

  lemma {:induction false} CallAt(s: seq<byte>, k: nat, n: nat, i: nat)
    requires BLOCK * k <= |s| && i < k
    ensures BlockCalls(s, k, n)[i] == Call(s[BLOCK * i..BLOCK * (i + 1)], CounterOf(i, n))
  {
    if i == k - 1 {
    } else {
      CallAt(s, k - 1, n, i);
    }
  }

  // ----- finalisation -----

  lemma SmallAppend(v: View, d: seq<byte>)
    requires Ok(v) && 0 < |d| && v.left + |d| < BLOCK
    ensures Updated(v, d) == Stored(v, d).(left := v.left + |d|)
  {
    AbsorbShort(v, d);
  }

  lemma SmallFill(v: View, d: seq<byte>)
    requires Ok(v) && 0 < v.left && |d| == BLOCK - v.left
    ensures var full := Stored(v, d);
      Updated(v, d) == Compressed(Bumped(full), full.buf).(left := 0)
  {
    assert d[..BLOCK - v.left] == d && d[BLOCK - v.left..] == [];
  }

  lemma LoweredTwice(v: View, a: nat, b: nat)
    ensures Lowered(Lowered(v, a), b) == Lowered(v, a + b)
  {
    var m := (v.t0 - a) / TWO32;
    var r := (v.t0 - a) % TWO32;
    assert v.t0 - a - b == TWO32 * m + (r - b);
    ModShiftInt(m, TWO32, r - b);
  }

  lemma ModShiftInt(a: int, q: nat, w: int)
    requires q > 0
    ensures (q * a + w) % q == w % q
  {
    var k, r := w / q, w % q;
    var n := q * a + w;
    assert n == (a + k) * q + r;
    SameQuotient(n / q, n % q, a + k, r, q);
  }

  /** Lowering by what the padding adds and bumping leaves the bits of the message, without a carry. */
  lemma LoweredThenBumped(v: View, r: nat)
    requires v.t0 % 512 == 0 && 0 < r < BLOCK
    ensures var w := Bumped(Lowered(v, 512 - 8 * r)); w.t0 == v.t0 + 8 * r && w.t1 == v.t1
  {
    LastBlockFits(v.t0);
    if v.t0 == 0 {
      DivModUnique(0, TWO32, TWO32 - (512 - 8 * r));
      ModShiftInt(-1, TWO32, TWO32 - (512 - 8 * r));
      DivModUnique(1, TWO32, 8 * r);
    } else {
      DivModUnique(0, TWO32, v.t0 - (512 - 8 * r));
      DivModUnique(0, TWO32, v.t0 + 8 * r);
    }
  }

  lemma LastBlockFits(t: u32)
    requires t % 512 == 0
    ensures t <= TWO32 - 512 && (t == 0 || t >= 512)
  {
  }

  lemma LengthOfMessage(v: View, msg: seq<byte>)
    requires Holds(v, msg)
    ensures LengthBytes(v) == BigEndian(8 * |msg|, 8)
  {
    hide BlockCalls, Digits, Pow;
    AlignedCounter(v, msg);
    LastBlockFits(v.t0);
    var lo := v.t0 + 8 * v.left;
    DivModUnique(0, TWO32, lo);
    FourBytes();
    DigitsConcat(256, v.t1, 4, lo, 4);
  }

  /** The last block when the length fits: message tail, padding and length. */
  function LastBlock(tail: seq<byte>, n: nat, pa: byte, pb: byte): seq<byte>
    requires |tail| <= 55
  {
    tail + Pad(56 - |tail|, pa, pb) + BigEndian(8 * n, 8)
  }

  lemma FinishByOne(v: View, msg: seq<byte>, pa: byte, pb: byte)
    requires Holds(v, msg) && v.left == 55
    ensures Finished(v, pa, pb).calls == v.calls + [Call(LastBlock(msg[|msg| - 55..], |msg|, pa, pb), Some(8 * |msg|))]
  {
    hide BlockCalls, BigEndian, LengthBytes, Bumped, Lowered, Updated;
    LengthOfMessage(v, msg);
    var length := LengthBytes(v);
    LoweredFrame(v, 8);
    SmallAppend(Lowered(v, 8), [pa]);
    var v1 := Stored(v, [pa]).(left := 56);
    LoweredCommutes(v, v1, 8);
    assert PaddedByOne(v, pa) == Lowered(v1, 8);
    LoweredTwice(v1, 8, 64);
    FillLast(v1, v, 72, length);
    AlignedCounter(v, msg);
    LoweredThenBumped(v, 55);
    assert v1.buf[..56] + length == LastBlock(msg[|msg| - 55..], |msg|, pa, pb);
  }

  lemma LoweredFrame(v: View, a: nat)
    ensures Lowered(v, a) == v.(t0 := Lowered(v, a).t0)
  {
  }

  /** Lowering only looks at the counter. */
  lemma LoweredCommutes(v: View, w: View, a: nat)
    requires w.t0 == v.t0
    ensures Lowered(w, a) == w.(t0 := Lowered(v, a).t0)
  {
  }

  /** The final update: the length completes the block, compressed under the lowered and bumped counter. */
  lemma FillLast(w: View, v: View, lowered: nat, length: seq<byte>)
    requires Ok(w) && w.left == 56 && |length| == 8 && w.t0 == v.t0 && w.t1 == v.t1
    ensures Updated(Lowered(w, lowered), length).calls ==
            w.calls + [Call(w.buf[..56] + length,
                            var b := Bumped(Lowered(v, lowered)); if w.nullt then None else Some(b.t1 * TWO32 + b.t0))]
  {
    LoweredFrame(w, lowered);
    SmallFill(Lowered(w, lowered), length);
    assert Stored(Lowered(w, lowered), length).buf == w.buf[..56] + length;
  }

  /** The state before the length is added, apart from the counter. */
  function InBlockPadded(v: View, pb: byte): (w: View)
    requires Ok(v) && v.left < 55
    ensures Ok(w)
  {
    var v1 := v.(nullt := v.nullt || v.left == 0);
    var v2 := Stored(v1, PaddingTable(55 - v.left)).(left := 55);
    Stored(v2, [pb]).(left := 56)
  }

  lemma InBlockShape(v: View, pb: byte)
    requires Ok(v) && v.left < 55
    ensures PaddedInBlock(v, pb) == Lowered(InBlockPadded(v, pb), 8 * (56 - v.left))
  {
    hide Lowered, Updated, PaddingTable;
    var a := 8 * (55 - v.left);
    var v1 := v.(nullt := v.nullt || v.left == 0);
    var v2 := Stored(v1, PaddingTable(55 - v.left)).(left := 55);
    var v3 := InBlockPadded(v, pb);
    LoweredFrame(v1, a);
    SmallAppend(Lowered(v1, a), PaddingTable(55 - v.left));
    LoweredCommutes(v1, v2, a);
    LoweredFrame(v2, a);
    SmallAppend(Lowered(v2, a), [pb]);
    LoweredCommutes(v1, v3, a);
    LoweredTwice(v3, a, 8);
  }

  lemma FinishInBlock(v: View, msg: seq<byte>, pa: byte, pb: byte)
    requires Holds(v, msg) && v.left < 55
    ensures Finished(v, pa, pb).calls ==
            v.calls + [Call(LastBlock(msg[|msg| - v.left..], |msg|, pa, pb),
                            if v.left == 0 then None else Some(8 * |msg|))]
  {
    hide BlockCalls, BigEndian, LengthBytes, Bumped, Lowered, Updated, PaddedInBlock;
    LengthOfMessage(v, msg);
    var r, length, v3 := v.left, LengthBytes(v), InBlockPadded(v, pb);
    InBlockShape(v, pb);
    LoweredTwice(v3, 8 * (56 - r), 64);
    FillLast(v3, v, 512 - 8 * r, length);
    if r > 0 {
      AlignedCounter(v, msg);
      LoweredThenBumped(v, r);
    }
    InBlockBytes(v, msg, pa, pb);
  }

  lemma InBlockBytes(v: View, msg: seq<byte>, pa: byte, pb: byte)
    requires Ok(v) && v.left < 55 && v.left <= |msg| && v.buf[..v.left] == msg[|msg| - v.left..]
    ensures InBlockPadded(v, pb).buf[..56] + BigEndian(8 * |msg|, 8) == LastBlock(msg[|msg| - v.left..], |msg|, pa, pb)
  {
    hide BigEndian;
  }

  /** The first of two padding blocks ends the message and counts all its bits. */
  lemma OverFirst(v: View, msg: seq<byte>)
    requires Holds(v, msg) && v.left > 55
    ensures
      var w := Updated(Lowered(v, 8 * (BLOCK - v.left)), PaddingTable(BLOCK - v.left));
      Ok(w) && w.left == 0 && !w.nullt &&
      w.calls == v.calls + [Call(msg[|msg| - v.left..] + PaddingTable(BLOCK - v.left), Some(8 * |msg|))]
  {
    hide BlockCalls, BigEndian, Bumped, Lowered, Updated;
    var r := v.left;
    var low := Lowered(v, 8 * (BLOCK - r));
    LoweredFrame(v, 8 * (BLOCK - r));
    SmallFill(low, PaddingTable(BLOCK - r));
    var full := Stored(low, PaddingTable(BLOCK - r));
    assert full.buf == msg[|msg| - r..] + PaddingTable(BLOCK - r);
    AlignedCounter(v, msg);
    LoweredThenBumped(v, r);
    BumpFrame(full);
    BumpSame(full, low);
  }

  /** The second holds no message bit and is compressed without a counter. */
  lemma OverSecond(v: View, pb: byte, length: seq<byte>)
    requires Ok(v) && v.left == 0 && |length| == 8
    ensures
      var w := Updated(Lowered(v, 440), Zeros(55)).(nullt := true);
      Updated(Lowered(Lowered(Updated(w, [pb]), 8), 64), length).calls
      == v.calls + [Call(Zeros(55) + [pb] + length, None)]
  {
    hide Bumped, Lowered, Updated;
    var v2 := Stored(v, Zeros(55)).(left := 55, nullt := true);
    LoweredFrame(v, 440);
    SmallAppend(Lowered(v, 440), Zeros(55));
    LoweredCommutes(v, v2, 440);
    SmallAppend(Lowered(v2, 440), [pb]);
    LoweredFrame(v2, 440);
    var v3 := Stored(v2, [pb]).(left := 56);
    LoweredCommutes(v2, v3, 440);
    LoweredTwice(v3, 440, 8);
    LoweredTwice(v3, 448, 64);
    FillLast(v3, v3, 512, length);
    assert v3.buf[..56] == Zeros(55) + [pb];
  }

  lemma FinishOverBlock(v: View, msg: seq<byte>, pa: byte, pb: byte)
    requires Holds(v, msg) && v.left > 55
    ensures Finished(v, pa, pb).calls ==
            v.calls + [Call(msg[|msg| - v.left..] + PaddingTable(BLOCK - v.left), Some(8 * |msg|))]
                    + [Call(Zeros(55) + [pb] + BigEndian(8 * |msg|, 8), None)]
  {
    hide BlockCalls, BigEndian, LengthBytes, Lowered, Updated, PaddingTable, Zeros;
    LengthOfMessage(v, msg);
    LoweredFrame(v, 8 * (BLOCK - v.left));
    OverFirst(v, msg);
    var first := Updated(Lowered(v, 8 * (BLOCK - v.left)), PaddingTable(BLOCK - v.left));
    LoweredFrame(first, 440);
    OverSecond(first, pb, LengthBytes(v));
  }

  lemma BumpSame(v: View, w: View)
    requires v.t0 == w.t0 && v.t1 == w.t1
    ensures Bumped(v).t0 == Bumped(w).t0 && Bumped(v).t1 == Bumped(w).t1
  {
  }

  /** The compressions of a hash are the blocks of the padded message, each with its counter. */
  function HashCalls(msg: seq<byte>, pa: byte, pb: byte): seq<Call>
  {
    var p := Padded(msg, pa, pb);
    BlockCalls(p, |p| / BLOCK, |msg|)
  }

  lemma FinishedCalls(v: View, msg: seq<byte>, pa: byte, pb: byte)
    requires Holds(v, msg)
    ensures Finished(v, pa, pb).calls == HashCalls(msg, pa, pb)
  {
    hide BlockCalls, BigEndian, Finished, Padded, Pad, LastBlock, PaddingTable, Zeros;
    var n, k := |msg|, |msg| / BLOCK;
    var p := Padded(msg, pa, pb);
    MessageBlocks(msg, pa, pb);
    if v.left <= 55 {
      OneBlock(msg, v.left, pa, pb);
      DivModUnique(k + 1, BLOCK, 0);
      CallsUnfold(p, k + 1, n);
      if v.left == 55 { FinishByOne(v, msg, pa, pb); } else { FinishInBlock(v, msg, pa, pb); }
    } else {
      TwoBlocks(msg, v.left, pa, pb);
      DivModUnique(k + 2, BLOCK, 0);
      CallsUnfold(p, k + 2, n);
      CallsUnfold(p, k + 1, n);
      FinishOverBlock(v, msg, pa, pb);
    }
  }

  /** The blocks before the padding are those of the message. */
  lemma MessageBlocks(msg: seq<byte>, pa: byte, pb: byte)
    ensures BlockCalls(Padded(msg, pa, pb), |msg| / BLOCK, |msg|) == BlockCalls(msg, |msg| / BLOCK, |msg|)
  {
    hide BlockCalls, BigEndian, Pad, PadLength;
    var pad, k := Pad(PadLength(|msg|), pa, pb), |msg| / BLOCK;
    CallsExtend(msg, pad, k, |msg|, |msg|);
    CallsExtend(msg + pad, BigEndian(8 * |msg|, 8), k, |msg|, |msg|);
  }

  lemma OneBlock(msg: seq<byte>, r: nat, pa: byte, pb: byte)
    requires r == |msg| % BLOCK && r <= 55
    ensures var p, k := Padded(msg, pa, pb), |msg| / BLOCK;
      |p| == BLOCK * (k + 1) && p[BLOCK * k..BLOCK * (k + 1)] == LastBlock(msg[|msg| - r..], |msg|, pa, pb)
  {
    hide BigEndian, Pad;
    var p, k := Padded(msg, pa, pb), |msg| / BLOCK;
    assert |msg| == BLOCK * k + r;
    assert p[BLOCK * k..] == LastBlock(msg[|msg| - r..], |msg|, pa, pb);
    assert p[BLOCK * k..BLOCK * (k + 1)] == p[BLOCK * k..];
  }

  lemma TwoBlocks(msg: seq<byte>, r: nat, pa: byte, pb: byte)
    requires r == |msg| % BLOCK && r > 55
    ensures var p, k := Padded(msg, pa, pb), |msg| / BLOCK;
      |p| == BLOCK * (k + 2) &&
      p[BLOCK * k..BLOCK * (k + 1)] == msg[|msg| - r..] + PaddingTable(BLOCK - r) &&
      p[BLOCK * (k + 1)..BLOCK * (k + 2)] == Zeros(55) + [pb] + BigEndian(8 * |msg|, 8)
  {
    hide BigEndian, Pad, PaddingTable, Zeros;
    var k, n := |msg| / BLOCK, |msg|;
    PadSplits(r, pa, pb);
    ThreeParts(msg[..n - r], msg[n - r..] + PaddingTable(BLOCK - r), Zeros(55) + [pb] + BigEndian(8 * n, 8));
    Regroup5(msg, n - r, PaddingTable(BLOCK - r), Zeros(55) + [pb], BigEndian(8 * n, 8));
  }

  lemma PadSplits(r: nat, pa: byte, pb: byte)
    requires 55 < r < BLOCK
    ensures Pad(120 - r, pa, pb) == PaddingTable(BLOCK - r) + (Zeros(55) + [pb])
  {
    assert Zeros(118 - r) == Zeros(63 - r) + Zeros(55);
  }

  lemma Regroup5(msg: seq<byte>, i: nat, x: seq<byte>, y: seq<byte>, z: seq<byte>)
    requires i <= |msg|
    ensures msg + (x + y) + z == msg[..i] + (msg[i..] + x) + (y + z)
  {
  }

  lemma ThreeParts(a: seq<byte>, b: seq<byte>, c: seq<byte>)
    ensures var p := a + b + c; p[|a|..|a| + |b|] == b && p[|a| + |b|..|a| + |b| + |c|] == c
  {
  }

  // ----- the struct itself -----

  /** The compression with its initial value, and the bytes of a chaining value. */
  datatype Core<!H(!new)> = Core(iv: H, compress: (H, Call) -> H, bytes: H -> seq<byte>)

  function Chain<H(!new)>(core: Core<H>, calls: seq<Call>): H
  {
    if calls == [] then core.iv else core.compress(Chain(core, calls[..|calls| - 1]), calls[|calls| - 1])
  }

  class Hasher<H(!new)> {
    const core: Core<H>
    const buf: array<byte>
    var h: H
    var t0: u32
    var t1: u32
    var left: nat
    var nullt: bool
    ghost var calls: seq<Call>

    ghost predicate Valid()
      reads this, buf
    {
      buf.Length == BLOCK && left < BLOCK && h == Chain(core, calls)
    }

    ghost function Now(): View
      reads this, buf
    {
      View(t0, t1, left, nullt, buf[..], calls)
    }

    /** blake256_init */
    constructor (core: Core<H>)
      ensures Valid() && Fresh(Now()) && this.core == core && fresh(buf)
    {
      this.core := core;
      buf := new byte[BLOCK](_ => 0);
      h, t0, t1, left, nullt, calls := core.iv, 0, 0, 0, false, [];
    }

    method Bump()
      requires Valid()
      modifies this
      ensures Valid() && Now() == Bumped(old(Now()))
    {
      t0 := (t0 + 512) % TWO32;
      if t0 == 0 { t1 := (t1 + 1) % TWO32; }
    }

    method Compress(block: seq<byte>)
      requires Valid()
      modifies this
      ensures Valid() && Now() == Compressed(old(Now()), block)
    {
      hide Chain;
      var call := Call(block, if nullt then None else Some(t1 * TWO32 + t0));
      h := core.compress(h, call);
      ChainStep(core, calls, call);
      calls := calls + [call];
    }

    method Store(data: seq<byte>)
      requires Valid() && left + |data| <= BLOCK
      modifies buf
      ensures Valid() && Now() == Stored(old(Now()), data)
    {
      forall k | 0 <= k < |data| { buf[left + k] := data[k]; }
      assert buf[..] == old(buf[..left]) + data + old(buf[left + |data|..]);
    }

    /** blake256_update */
    method Update(data: seq<byte>)
      requires Valid()
      modifies this, buf
      ensures Valid() && Now() == Updated(old(Now()), data)
    {
      hide Bumped, Compressed, Stored, Absorbed;
      var rest := data;
      var fill := BLOCK - left;
      if left > 0 && |data| % BLOCK >= fill {
        Store(data[..fill]);
        StoredFrame(old(Now()), data[..fill]);
        Bump();
        BumpFrame(Stored(old(Now()), data[..fill]));
        Compress(buf[..]);
        rest := data[fill..];
        left := 0;
      }
      AbsorbAll(rest);
    }

    method Lower(bits: nat)
      requires Valid()
      modifies this
      ensures Valid() && Now() == Lowered(old(Now()), bits)
    {
      t0 := (t0 - bits) % TWO32;
    }

    /** blake256_final_h */
    method Finish(pa: byte, pb: byte) returns (digest: seq<byte>)
      requires Valid()
      modifies this, buf
      ensures Valid() && Now() == Finished(old(Now()), pa, pb) && digest == core.bytes(h)
    {
      hide Updated, Lowered, Chain, BigEndian;
      var lo := (t0 + 8 * left) % TWO32;
      var hi := if lo < 8 * left then (t1 + 1) % TWO32 else t1;
      var length := BigEndian(hi, 4) + BigEndian(lo, 4);
      PadBlock(pa, pb);
      Lower(64);
      Update(length);
      digest := core.bytes(h);
    }

    method PadBlock(pa: byte, pb: byte)
      requires Valid()
      modifies this, buf
      ensures Valid()
      ensures Now() == if old(left) == 55 then PaddedByOne(old(Now()), pa)
                       else if old(left) < 55 then PaddedInBlock(old(Now()), pb) else PaddedOverBlock(old(Now()), pb)
    {
      hide Updated, Lowered, Chain, PaddingTable, Zeros;
      if left == 55 {
        Lower(8);
        Update([pa]);
      } else {
        if left < 55 {
          if left == 0 { nullt := true; }
          var n := 55 - left;
          LoweredFrame(Now(), 8 * n);
          Lower(8 * n);
          Update(PaddingTable(n));
        } else {
          var n := BLOCK - left;
          LoweredFrame(Now(), 8 * n);
          Lower(8 * n);
          Update(PaddingTable(n));
          LoweredFrame(Now(), 440);
          Lower(440);
          Update(Zeros(55));
          nullt := true;
        }
        Update([pb]);
        Lower(8);
      }
    }

    method AbsorbAll(data: seq<byte>)
      requires Valid() && left + |data| % BLOCK < BLOCK
      modifies this, buf
      ensures Valid() && Now() == Absorbed(old(Now()), data)
    {
      hide Bumped, Compressed, Stored, Absorbed;
      var rest := data;
      while |rest| >= BLOCK
        invariant Valid() && left + |rest| % BLOCK < BLOCK
        invariant Absorbed(Now(), rest) == Absorbed(old(Now()), data)
        decreases |rest|
      {
        AbsorbedUnfold(Now(), rest);
        BumpFrame(Now());
        Bump();
        CompressFrame(Now(), rest[..BLOCK]);
        Compress(rest[..BLOCK]);
        rest := rest[BLOCK..];
      }
      AbsorbedUnfold(Now(), rest);
      if |rest| > 0 {
        StoredFrame(Now(), rest);
        Store(rest);
        left := left + |rest|;
      } else {
        left := 0;
      }
    }
  }

  lemma ChainStep<H(!new)>(core: Core<H>, calls: seq<Call>, call: Call)
    ensures Chain(core, calls + [call]) == core.compress(Chain(core, calls), call)
  {
    assert (calls + [call])[..|calls|] == calls;
  }

  lemma StoredFrame(v: View, data: seq<byte>)
    requires Ok(v) && v.left + |data| <= BLOCK
    ensures var w := Stored(v, data); w == v.(buf := w.buf) && |w.buf| == BLOCK
  {
  }

  lemma CompressFrame(v: View, block: seq<byte>)
    ensures var w := Compressed(v, block); w == v.(calls := w.calls)
  {
  }

  lemma AbsorbedUnfold(v: View, data: seq<byte>)
    requires Ok(v) && v.left + |data| % BLOCK < BLOCK
    ensures |data| >= BLOCK ==> |data[BLOCK..]| % BLOCK == |data| % BLOCK
    ensures |data| >= BLOCK ==> Absorbed(v, data) == Absorbed(Compressed(Bumped(v), data[..BLOCK]), data[BLOCK..])
    ensures 0 < |data| < BLOCK ==> Absorbed(v, data) == Stored(v, data).(left := v.left + |data|)
    ensures data == [] ==> Absorbed(v, data) == v.(left := 0)
  {
    hide Bumped, Compressed, Stored;
    if |data| >= BLOCK { SameRemainder(|data|, BLOCK); }
  }

  // ----- hashing and HMAC -----

  function Digest<H(!new)>(core: Core<H>, msg: seq<byte>): seq<byte>
  {
    core.bytes(Chain(core, HashCalls(msg, 0x81, 0x01)))
  }

  lemma FreshHolds(v: View)
    requires Fresh(v)
    ensures Holds(v, [])
  {
    hide BlockCalls;
    NoCalls();
    DivModUnique(0, BLOCK, 0);
  }

  lemma NoCalls()
    ensures BlockCalls([], 0, 0) == []
  {
  }

  method Started<H(!new)>(core: Core<H>) returns (s: Hasher<H>)
    ensures fresh(s) && fresh(s.buf) && s.Valid() && s.core == core && Fresh(s.Now()) && Holds(s.Now(), [])
  {
    hide Chain;
    s := new Hasher(core);
    FreshHolds(s.Now());
  }

  /** blake256_hash */
  method Hash<H(!new)>(core: Core<H>, msg: seq<byte>) returns (out: seq<byte>)
    requires 8 * |msg| < TWO64
    ensures out == Digest(core, msg)
  {
    hide Holds, Digest, Chain;
    assert [] + msg == msg;
    var s := Started(core);
    out := FinishAfter(s, [], msg);
  }

  /** The exclusive or of the n low bits. */
  function XorBits(n: nat, a: nat, b: nat): (r: nat)
    ensures r < Shl(1, n)
  {
    if n == 0 then 0 else 2 * XorBits(n - 1, a / 2, b / 2) + (a % 2 + b % 2) % 2
  }

  function Xor(a: byte, b: byte): byte
  {
    EightBits();
    XorBits(8, a, b)
  }

  lemma EightBits()
    ensures Shl(1, 8) == 256
  {
    assert Shl(1, 4) == 16;
    ShlShl(1, 4, 4);
    assert Shl(16, 4) == 256;
  }

  lemma {:induction false} XorBitsZero(n: nat, a: nat)
    requires a < Shl(1, n)
    ensures XorBits(n, 0, a) == a
  {
    if n == 0 {
    } else {
      XorBitsZero(n - 1, a / 2);
    }
  }

  lemma {:induction false} XorBitsCommute(n: nat, a: nat, b: nat)
    ensures XorBits(n, a, b) == XorBits(n, b, a)
  {
    if n == 0 {
    } else {
      XorBitsCommute(n - 1, a / 2, b / 2);
    }
  }

  lemma {:induction false} XorBitsBack(n: nat, a: nat, b: nat)
    requires a < Shl(1, n)
    ensures XorBits(n, XorBits(n, a, b), b) == a
  {
    if n == 0 {
    } else {
      LowBit(XorBits(n - 1, a / 2, b / 2), a % 2, b % 2);
      XorBitsBack(n - 1, a / 2, b / 2);
    }
  }

  lemma LowBit(h: nat, x: nat, y: nat)
    requires x < 2 && y < 2
    ensures var r := 2 * h + (x + y) % 2; r / 2 == h && r % 2 == (x + y) % 2 && (r % 2 + y) % 2 == x
  {
  }

  lemma XorZero(a: byte)
    ensures Xor(0, a) == a
  {
    hide XorBits, Shl;
    EightBits();
    XorBitsZero(8, a);
  }

  lemma XorCommutes(a: byte, b: byte)
    ensures Xor(a, b) == Xor(b, a)
  {
    hide XorBits;
    XorBitsCommute(8, a, b);
  }

  lemma XorBack(a: byte, b: byte)
    ensures Xor(Xor(a, b), b) == a
  {
    hide XorBits, Shl;
    EightBits();
    XorBitsBack(8, a, b);
  }

  /** The key followed by zeros up to the block size, combined with a constant byte. */
  function KeyPad(key: seq<byte>, c: byte): (s: seq<byte>)
    requires |key| <= BLOCK
    ensures |s| == BLOCK
  {
    var k := key + Zeros(BLOCK - |key|);
    seq(BLOCK, i requires 0 <= i < BLOCK => Xor(k[i], c))
  }

  /** Section 2 of RFC 2104, with long keys hashed first. */
  function Hmac<H(!new)>(core: Core<H>, key: seq<byte>, msg: seq<byte>): seq<byte>
    requires forall h :: |core.bytes(h)| == 32
  {
    var k := if |key| > BLOCK then Digest(core, key) else key;
    Digest(core, KeyPad(k, 0x5c) + Digest(core, KeyPad(k, 0x36) + msg))
  }

  /** memset of the pad and the loop that mixes the key in */
  method MixKey(key: seq<byte>, c: byte) returns (pad: seq<byte>)
    requires |key| <= BLOCK
    ensures pad == KeyPad(key, c)
  {
    hide Xor;
    var p := new byte[BLOCK](_ => c);
    for i := 0 to |key|
      invariant forall j :: 0 <= j < i ==> p[j] == Xor(key[j], c)
      invariant forall j :: i <= j < BLOCK ==> p[j] == c
    {
      XorCommutes(key[i], c);
      p[i] := Xor(p[i], key[i]);
    }
    XorZero(c);
    pad := p[..];
  }

  /** hmac_blake256_hash: init, one update of the inner state, and final */
  method HmacHash<H(!new)>(core: Core<H>, key: seq<byte>, msg: seq<byte>) returns (out: seq<byte>)
    requires forall h :: |core.bytes(h)| == 32
    requires 8 * |key| < TWO64 && 8 * (BLOCK + |msg|) < TWO64
    ensures out == Hmac(core, key, msg)
  {
    hide Holds, Updated, Finished, Chain, HashCalls, KeyPad, Digest;
    var k := key;
    if |key| > BLOCK {
      k := Hash(core, key);
      DigestSize(core, key);
    }
    var pad := MixKey(k, 0x36);
    var inner := Keyed(core, pad);
    pad := MixKey(k, 0x5c);
    var outer := Keyed(core, pad);
    var ihash := FinishAfter(inner, KeyPad(k, 0x36), msg);
    DigestSize(core, KeyPad(k, 0x36) + msg);
    out := FinishAfter(outer, KeyPad(k, 0x5c), ihash);
  }

  lemma DigestSize<H(!new)>(core: Core<H>, msg: seq<byte>)
    requires forall h :: |core.bytes(h)| == 32
    ensures |Digest(core, msg)| == 32
  {
  }

  /** A state that has absorbed one block of key material; its buffer is empty. */
  method Keyed<H(!new)>(core: Core<H>, pad: seq<byte>) returns (s: Hasher<H>)
    requires |pad| == BLOCK
    ensures fresh(s) && fresh(s.buf) && s.Valid() && s.core == core && Holds(s.Now(), pad)
  {
    hide Holds, Updated, Chain;
    assert [] + pad == pad;
    s := Started(core);
    ghost var v := s.Now();
    HoldsLeft(v, []);
    s.Update(pad);
    UpdateHolds(v, [], pad);
  }

  /** One more update, after full blocks, and final. */
  method FinishAfter<H(!new)>(s: Hasher<H>, ghost before: seq<byte>, data: seq<byte>) returns (out: seq<byte>)
    requires s.Valid() && |before| % BLOCK == 0 && Holds(s.Now(), before) && 8 * (|before| + |data|) < TWO64
    modifies s, s.buf
    ensures out == Digest(s.core, before + data)
  {
    hide Holds, Updated, Finished, Chain, HashCalls;
    ghost var v := s.Now();
    HoldsLeft(v, before);
    s.Update(data);
    UpdateHolds(v, before, data);
    FinishedCalls(s.Now(), before + data, 0x81, 0x01);
    out := s.Finish(0x81, 0x01);
  }
}
