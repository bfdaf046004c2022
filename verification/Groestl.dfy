/** Groestl of src/crypto/groestl.c on whole bytes: streaming, padding and block counters around an abstract core. */
module Groestl {
  import opened Words
  import opened Positional

  const SIZE: nat := 64
  const LENGTH_FIELD: nat := 8

  /** The initial value, F512 and the output transformation. */
  datatype Core<!H(!new)> = Core(iv: H, f512: (H, seq<byte>) -> H, output: H -> seq<byte>)

  // ----- the hash of a message -----

  /** Digesting the full blocks of s. */
  function Digested<H(!new)>(core: Core<H>, h: H, s: seq<byte>): H
    decreases |s|
  {
    if |s| < SIZE then h else Digested(core, core.f512(h, s[..SIZE]), s[SIZE..])
  }

  /** The blocks of a message of n bytes with its padding. */
  function BlockCount(n: nat): nat
  {
    (n + LENGTH_FIELD) / SIZE + 1
  }

  /** Message, 0x80, zeros, and the 64-bit number of blocks. */
  function Padded(msg: seq<byte>): (s: seq<byte>)
    ensures |s| == SIZE * BlockCount(|msg|)
  {
    var blocks := BlockCount(|msg|);
    msg + [0x80] + Zeros(SIZE * blocks - |msg| - 1 - LENGTH_FIELD) + BigEndian(blocks % TWO64, LENGTH_FIELD)
  }

  function Hash<H(!new)>(core: Core<H>, msg: seq<byte>): seq<byte>
  {
    core.output(Digested(core, core.iv, Padded(msg)))
  }

  /** Digesting goes block by block, so it can be interrupted at any block boundary. */
  lemma {:induction false} DigestedConcat<H(!new)>(core: Core<H>, h: H, x: seq<byte>, y: seq<byte>)
    requires |x| % SIZE == 0
    ensures Digested(core, h, x + y) == Digested(core, Digested(core, h, x), y)
    decreases |x|
  {
    if x == [] {
      assert x + y == y;
    } else {
      assert (x + y)[..SIZE] == x[..SIZE] && (x + y)[SIZE..] == x[SIZE..] + y;
      DigestedConcat(core, core.f512(h, x[..SIZE]), x[SIZE..], y);
    }
  }

  lemma DigestedBlock<H(!new)>(core: Core<H>, h: H, x: seq<byte>, b: seq<byte>)
    requires |x| % SIZE == 0 && |b| == SIZE
    ensures Digested(core, h, x + b) == core.f512(Digested(core, h, x), b)
  {
    DigestedConcat(core, h, x, b);
    assert b[..SIZE] == b && b[SIZE..] == [];
  }

  // ----- the state -----

  class State<H(!new)> {
    const core: Core<H>
    const buffer: array<byte>
    var chaining: H
    var counter1: u32
    var counter2: u32
    var bufPtr: nat
    ghost var msg: seq<byte>  // all bytes given to Update so far

    /** The full blocks of `s` are digested and counted; nothing is said of the buffer. */
    ghost predicate Absorbed(s: seq<byte>)
      reads this
    {
      |s| % SIZE == 0 && chaining == Digested(core, core.iv, s) &&
      counter2 * TWO32 + counter1 == (|s| / SIZE) % TWO64
    }

    /** The digested blocks and the buffer make up the message; the buffer may be full. */
    ghost predicate Buffered()
      reads this, buffer
    {
      buffer.Length == SIZE && bufPtr <= SIZE && bufPtr <= |msg| &&
      buffer[..bufPtr] == msg[|msg| - bufPtr..] && Absorbed(msg[..|msg| - bufPtr])
    }

    ghost predicate Valid()
      reads this, buffer
    {
      Buffered() && bufPtr < SIZE
    }

    constructor (core: Core<H>)
      ensures Valid() && msg == [] && this.core == core && fresh(buffer)
    {
      this.core := core;
      buffer := new byte[SIZE](_ => 0);
      chaining, counter1, counter2, bufPtr, msg := core.iv, 0, 0, 0, [];
    }

    /** block_counter1++, carried into block_counter2 */
    method Count(ghost n: nat)
      requires counter2 * TWO32 + counter1 == n % TWO64
      modifies this`counter1, this`counter2
      ensures counter2 * TWO32 + counter1 == (n + 1) % TWO64
    {
      CountStep(counter1, counter2, n);
      counter1 := (counter1 + 1) % TWO32;
      if counter1 == 0 { counter2 := (counter2 + 1) % TWO32; }
    }

    /** Transform on one block */
    method TransformBlock(block: seq<byte>, ghost s: seq<byte>)
      requires Absorbed(s) && |block| == SIZE
      modifies this`chaining, this`counter1, this`counter2
      ensures Absorbed(s + block)
    {
      hide Digested;
      DigestedBlock(core, core.iv, s, block);
      chaining := core.f512(chaining, block);
      BlocksOfSum(s, block);
      Count(|s| / SIZE);
    }

    /** Transform: every full block of the input */
    method Transform(input: seq<byte>, ghost s: seq<byte>)
      requires Absorbed(s)
      modifies this`chaining, this`counter1, this`counter2
      ensures Absorbed(s + input[..|input| - |input| % SIZE])
    {
      hide Absorbed;
      var i := 0;
      ghost var done := s;
      while |input| - i >= SIZE
        invariant 0 <= i <= |input| && i % SIZE == 0 && Absorbed(done)
        invariant done == s + input[..i]
      {
        TransformBlock(input[i..i + SIZE], done);
        done := done + input[i..i + SIZE];
        i := i + SIZE;
      }
      FullPart(|input|, i);
    }

    /** One byte into the buffer. */
    method Put(b: byte)
      requires Valid()
      modifies this`bufPtr, this`msg, buffer
      ensures Buffered() && msg == old(msg) + [b] && bufPtr == old(bufPtr) + 1
    {
      hide Digested;
      buffer[bufPtr] := b;
      bufPtr := bufPtr + 1;
      msg := msg + [b];
      assert msg[..|msg| - bufPtr] == old(msg[..|msg| - bufPtr]);
    }

    method PutAll(data: seq<byte>)
      requires Valid() && bufPtr + |data| <= SIZE
      modifies this`bufPtr, this`msg, buffer
      ensures Buffered() && msg == old(msg) + data && bufPtr == old(bufPtr) + |data|
    {
      hide Absorbed;
      for index := 0 to |data|
        invariant Buffered() && msg == old(msg) + data[..index] && bufPtr == old(bufPtr) + index
      {
        Put(data[index]);
      }
      assert data[..|data|] == data;
    }

    /** The full buffer is digested. */
    method Flush()
      requires Buffered() && bufPtr == SIZE
      modifies this`chaining, this`counter1, this`counter2, this`bufPtr
      ensures Valid() && bufPtr == 0
    {
      hide Digested;
      ghost var done := msg[..|msg| - SIZE];
      assert done + buffer[..] == msg;
      TransformBlock(buffer[..], done);
      bufPtr := 0;
      assert msg[..|msg|] == msg;
    }

    /** Update with whole bytes, whose number in bits is a 64-bit word; as an int it may come out short or negative. */
    method Update(data: seq<byte>)
      requires Valid() && 8 * |data| < TWO64
      modifies this, buffer
      ensures Valid() && msg == old(msg) + data[..Taken(|data|)]
      ensures msg == old(msg) + data <==> |data| < TWO31
    {
      hide Absorbed;
      TakenAll(|data|);
      AppendedPrefix(msg, data, Taken(|data|));
      var msglen := AsInt(|data|);
      var index := 0;
      if bufPtr > 0 {
        index := if msglen < 0 then 0 else if msglen < SIZE - bufPtr then msglen else SIZE - bufPtr;
        PutAll(data[..index]);
        if bufPtr < SIZE {
          return;
        }
        Flush();
      }
      if msglen >= index {  // of a negative length there is neither a block nor a rest
        Bulk(data[index..msglen]);
        assert data[..index] + data[index..msglen] == data[..msglen];
      }
    }

    /** The blocks of the bulk and the rest, on an empty buffer. */
    method Bulk(data: seq<byte>)
      requires Valid() && bufPtr == 0
      modifies this, buffer
      ensures Valid() && msg == old(msg) + data
    {
      hide Digested;
      var index := |data| - |data| % SIZE;
      assert msg[..|msg|] == msg;
      Transform(data, msg);
      msg := msg + data[..index];
      assert msg[..|msg|] == msg;
      PutAll(data[index..]);
      assert data[..index] + data[index..] == data;
    }

    /** Padding up to the length field, over one block or two. */
    method PutPadding()
      requires Valid()
      modifies this, buffer
      ensures Valid() && bufPtr == SIZE - LENGTH_FIELD
      ensures exists z: nat :: z < SIZE && msg == old(msg) + [0x80] + Zeros(z)
    {
      hide Absorbed;
      Put(0x80);
      ghost var z: nat := 0;
      if bufPtr > SIZE - LENGTH_FIELD {
        z := SIZE - bufPtr;
        if bufPtr < SIZE { PutAll(Zeros(SIZE - bufPtr)); }
        Flush();
      }
      assert msg == old(msg) + [0x80] + Zeros(z);
      ghost var more := SIZE - LENGTH_FIELD - bufPtr;
      PutAll(Zeros(SIZE - LENGTH_FIELD - bufPtr));
      assert Zeros(z) + Zeros(more) == Zeros(z + more);
      assert msg == old(msg) + [0x80] + Zeros(z + more);
    }

    lemma Aligned()
      requires Valid()
      ensures |msg| % SIZE == bufPtr
    {
      DivModUnique((|msg| - bufPtr) / SIZE, SIZE, bufPtr);
    }

    /** Final up to the digest. */
    method Final() returns (digest: seq<byte>)
      requires Valid()
      modifies this, buffer
      ensures digest == Hash(core, old(msg))
    {
      hide Digested, BigEndian, Padded, Zeros, Absorbed;
      ghost var m := msg;
      PutPadding();
      ghost var z: nat :| z < SIZE && msg == m + [0x80] + Zeros(z);
      Aligned();
      FinalBlock(msg[..|msg| - 56]);
      LastBlock(m, z);
      digest := core.output(chaining);
    }

    /** Length padding and the last block. */
    method FinalBlock(ghost done: seq<byte>)
      requires buffer.Length == SIZE && Absorbed(done)
      modifies this, buffer
      ensures chaining == Digested(core, core.iv,
                done + (old(buffer[..56]) + BigEndian((|done| / SIZE + 1) % TWO64, LENGTH_FIELD)))
    {
      hide Digested, BigEndian;
      Count(|done| / SIZE);
      WriteCounters();
      assert buffer[..] == buffer[..56] + buffer[56..];
      DigestedBlock(core, core.iv, done, buffer[..]);
      chaining := core.f512(chaining, buffer[..]);
    }

    /** The two loops that write the block counters from the end of the buffer, a byte at a time. */
    method WriteCounters()
      requires buffer.Length == SIZE
      modifies this`counter1, this`counter2, this`bufPtr, buffer
      ensures buffer[..56] == old(buffer[..56])
      ensures buffer[56..] == BigEndian(old(counter2 * TWO32 + counter1), LENGTH_FIELD)
    {
      ghost var c1, c2 := counter1, counter2;
      hide Digits, High, Low;
      var low := WriteWord(counter1, SIZE);
      var high := WriteWord(counter2, SIZE - 4);
      counter1, counter2, bufPtr := low, high, SIZE - LENGTH_FIELD;
      FourBytes();
      DigitsConcat(256, c2, 4, c1, 4);
      assert buffer[56..] == buffer[56..60] + buffer[60..64];
    }

    method WriteWord(word: u32, end: nat) returns (left: u32)
      requires buffer.Length == SIZE && 4 <= end <= SIZE
      modifies buffer
      ensures buffer[end - 4..end] == Digits(256, word, 4)
      ensures buffer[..end - 4] == old(buffer[..end - 4]) && buffer[end..] == old(buffer[end..])
    {
      hide Digits, High, Low;
      var ptr := end;
      left := word;
      while ptr > end - 4
        invariant end - 4 <= ptr <= end
        invariant Digits(256, word, 4) == Digits(256, left, ptr - (end - 4)) + buffer[ptr..end]
        invariant buffer[..end - 4] == old(buffer[..end - 4]) && buffer[end..] == old(buffer[end..])
      {
        DigitsUnfold(256, left, ptr - (end - 4));
        ShrinksByByte(left);
        ptr := ptr - 1;
        ghost var was := buffer[ptr + 1..end];
        buffer[ptr] := Low(left, 256);
        left := High(left, 256);
        assert buffer[ptr..end] == [buffer[ptr]] + was;
      }
      DigitsEmpty(left);
    }
  }

  lemma CountStep(c1: u32, c2: u32, n: nat)
    requires c2 * TWO32 + c1 == n % TWO64
    ensures var d1 := (c1 + 1) % TWO32;
      (if d1 == 0 then (c2 + 1) % TWO32 else c2) * TWO32 + d1 == (n + 1) % TWO64
  {
    var k := n / TWO64;
    assert n + 1 == k * TWO64 + (c2 * TWO32 + c1 + 1);
    if c1 + 1 < TWO32 {
      DivModUnique(0, TWO32, c1 + 1);
      DivModUnique(k, TWO64, c2 * TWO32 + c1 + 1);
    } else if c2 + 1 < TWO32 {
      DivModUnique(1, TWO32, 0);
      DivModUnique(0, TWO32, c2 + 1);
      DivModUnique(k, TWO64, c2 * TWO32 + c1 + 1);
    } else {
      DivModUnique(1, TWO32, 0);
      DivModUnique(k + 1, TWO64, 0);
    }
  }

  lemma BlocksOfSum(s: seq<byte>, b: seq<byte>)
    requires |s| % SIZE == 0 && |b| == SIZE
    ensures |s + b| % SIZE == 0 && |s + b| / SIZE == |s| / SIZE + 1
  {
  }

  lemma FullPart(n: nat, i: nat)
    requires i <= n && i % SIZE == 0 && n - i < SIZE
    ensures i == n - n % SIZE
  {
  }

  lemma DigitsEmpty(v: nat)
    ensures Digits(256, v, 0) == []
  {
  }

  lemma ShrinksByByte(v: u32)
    ensures 0 <= High(v, 256) < TWO32 && 0 <= Low(v, 256) < 256
  {
  }

  /** The padded message, cut before its last block. */
  lemma LastBlock(m: seq<byte>, z: nat)
    requires z < SIZE && (|m| + 1 + z) % SIZE == SIZE - LENGTH_FIELD
    ensures
      var msg, blocks := m + [0x80] + Zeros(z), BlockCount(|m|);
      |msg| >= 56 && (|msg| - 56) / SIZE + 1 == blocks &&
      Padded(m) == msg[..|msg| - 56] + (msg[|msg| - 56..] + BigEndian(blocks % TWO64, LENGTH_FIELD))
  {
    hide BigEndian;
    PaddingFits(|m|, z);
    var msg := m + [0x80] + Zeros(z);
    assert msg == msg[..|msg| - 56] + msg[|msg| - 56..];
  }

  /** The padding ends where the number of blocks has room for the length. */
  lemma PaddingFits(n: nat, z: nat)
    requires z < SIZE && (n + 1 + z) % SIZE == SIZE - LENGTH_FIELD
    ensures n + 1 + z + LENGTH_FIELD == SIZE * BlockCount(n)
    ensures (n + 1 + z - 56) / SIZE + 1 == BlockCount(n)
  {
    var b := (n + 1 + z) / SIZE;
    assert n + 1 + z == SIZE * b + 56;
    assert (n + LENGTH_FIELD) / SIZE == b by {
      DivModUnique(b, SIZE, n + LENGTH_FIELD - SIZE * b);
    }
    DivModUnique(b, SIZE, 0);
  }

  // ----- the length as an int -----

  /** The conversion of a 64-bit number to int. */
  function AsInt(n: nat): (r: int)
    ensures -TWO31 <= r < TWO31
  {
    var m := n % TWO32;
    if m < TWO31 then m else m - TWO32
  }

  /** The bytes of a piece of n that are absorbed. */
  function Taken(n: nat): (r: nat)
    ensures r <= n
  {
    if AsInt(n) < 0 then 0 else AsInt(n)
  }

  /** All of them are, if and only if they are fewer than 2^31. */
  lemma TakenAll(n: nat)
    ensures Taken(n) == n <==> n < TWO31
  {
    if n < TWO31 { DivModUnique(0, TWO32, n); }
  }

  /** A piece of 2^31 bytes is dropped, and of one of 2^32 + 5 bytes five are taken. */
  lemma TakenTooFew()
    ensures Taken(TWO31) == 0 && Taken(TWO32 + 5) == 5
  {
  }

  lemma AppendedPrefix(msg: seq<byte>, data: seq<byte>, k: nat)
    requires k <= |data|
    ensures msg + data[..k] == msg + data <==> k == |data|
  {
    if k == |data| { assert data[..k] == data; } else { assert |msg + data[..k]| < |msg + data|; }
  }

  // ----- any sequence of updates -----

  /** What is left of the pieces. */
  function TakenPieces(pieces: seq<seq<byte>>): (r: seq<seq<byte>>)
    ensures |r| == |pieces| && forall k :: 0 <= k < |r| ==> r[k] == pieces[k][..Taken(|pieces[k]|)]
  {
    seq(|pieces|, k requires 0 <= k < |pieces| => pieces[k][..Taken(|pieces[k]|)])
  }

  predicate AllShort(pieces: seq<seq<byte>>)
  {
    forall k :: 0 <= k < |pieces| ==> |pieces[k]| < TWO31
  }

  /** The message that updates absorb is the concatenation of the pieces if and only if each is below 2^31 bytes. */
  lemma {:induction false} PiecesExact(pieces: seq<seq<byte>>)
    ensures |Concat(TakenPieces(pieces))| <= |Concat(pieces)|
    ensures Concat(TakenPieces(pieces)) == Concat(pieces) <==> AllShort(pieces)
    decreases |pieces|
  {
    hide Taken;
    if pieces == [] {
    } else {
      var n := |pieces| - 1;
      var before, last := pieces[..n], pieces[n];
      PiecesExact(before);
      TakenAll(|last|);
      assert TakenPieces(pieces)[..n] == TakenPieces(before);
      assert AllShort(pieces) <==> AllShort(before) && |last| < TWO31;
      if AllShort(pieces) {
        assert last[..Taken(|last|)] == last;
      } else if |last| < TWO31 {
        assert last[..Taken(|last|)] == last;
        SameEnd(Concat(TakenPieces(before)), Concat(before), last);
      }
    }
  }

  lemma SameEnd(x: seq<byte>, y: seq<byte>, z: seq<byte>)
    ensures x + z == y + z <==> x == y
  {
    assert x == (x + z)[..|x + z| - |z|] && y == (y + z)[..|y + z| - |z|];
  }

  /** However a message is cut into updates of fewer than 2^31 bytes, its hash is that of the whole. */
  method HashPieces<H(!new)>(core: Core<H>, pieces: seq<seq<byte>>) returns (digest: seq<byte>)
    requires forall k :: 0 <= k < |pieces| ==> 8 * |pieces[k]| < TWO64
    ensures digest == Hash(core, Concat(TakenPieces(pieces)))
    ensures AllShort(pieces) ==> digest == Hash(core, Concat(pieces))
  {
    hide Hash, Taken;
    PiecesExact(pieces);
    var state := new State(core);
    ghost var taken := TakenPieces(pieces);
    for k := 0 to |pieces|
      invariant state.Valid() && fresh(state) && fresh(state.buffer) && state.core == core
      invariant state.msg == Concat(taken[..k])
    {
      assert taken[..k + 1][..k] == taken[..k];
      state.Update(pieces[k]);
    }
    assert taken[..|pieces|] == taken;
    digest := state.Final();
  }
}
