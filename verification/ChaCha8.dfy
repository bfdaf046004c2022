/** The stream cipher of src/crypto/chacha8.c: eight rounds and a 64-bit block counter in two words. */
module ChaCha8 {
  const BLOCK: nat := 64

  // ----- words -----

  function Load(b: seq<bv8>): bv32
    requires |b| == 4
  {
    (b[0] as bv32) | ((b[1] as bv32) << 8) | ((b[2] as bv32) << 16) | ((b[3] as bv32) << 24)
  }

  function Store(w: bv32): (b: seq<bv8>)
    ensures |b| == 4
  {
    [(w & 0xFF) as bv8, ((w >> 8) & 0xFF) as bv8, ((w >> 16) & 0xFF) as bv8, ((w >> 24) & 0xFF) as bv8]
  }

  function Words(b: seq<bv8>): (ws: seq<bv32>)
    requires |b| % 4 == 0
    ensures |ws| == |b| / 4
  {
    seq(|b| / 4, i requires 0 <= i < |b| / 4 => Load(b[4 * i..4 * i + 4]))
  }

  // ----- the block function -----

  type State = s: seq<bv32> | |s| == 16 witness seq(16, _ => 0)

  function Plus(x: bv32, y: bv32): bv32
  {
    x + y
  }

  /** ROTATE(XOR(x, y), c) */
  function Turn(x: bv32, y: bv32, c: nat): bv32
    requires c < 32
  {
    (x ^ y).RotateLeft(c)
  }

  /** The quarter round of section 2.1 of RFC 8439. */
  function QuarterRound(s: State, a: nat, b: nat, c: nat, d: nat): State
    requires a < 16 && b < 16 && c < 16 && d < 16
  {
    var s := s[a := Plus(s[a], s[b])];
    var s := s[d := Turn(s[d], s[a], 16)];
    var s := s[c := Plus(s[c], s[d])];
    var s := s[b := Turn(s[b], s[c], 12)];
    var s := s[a := Plus(s[a], s[b])];
    var s := s[d := Turn(s[d], s[a], 8)];
    var s := s[c := Plus(s[c], s[d])];
    s[b := Turn(s[b], s[c], 7)]
  }

  function DoubleRound(s: State): State
  {
    var s := QuarterRound(s, 0, 4, 8, 12);
    var s := QuarterRound(s, 1, 5, 9, 13);
    var s := QuarterRound(s, 2, 6, 10, 14);
    var s := QuarterRound(s, 3, 7, 11, 15);
    var s := QuarterRound(s, 0, 5, 10, 15);
    var s := QuarterRound(s, 1, 6, 11, 12);
    var s := QuarterRound(s, 2, 7, 8, 13);
    QuarterRound(s, 3, 4, 9, 14)
  }

  function Rounds(s: State, doubles: nat): State
    decreases doubles
  {
    hide DoubleRound;
    if doubles == 0 then s else Rounds(DoubleRound(s), doubles - 1)
  }

  /** Eight rounds and the addition of the input. */
  function Mixed(j: State): State
  {
    hide Rounds;
    var x := Rounds(j, 4);
    seq(16, i requires 0 <= i < 16 => Plus(x[i], j[i]))
  }

  // ----- the keystream -----

  /** j0..j15 for block number k. */
  function Input(key: seq<bv8>, iv: seq<bv8>, lo: bv32, hi: bv32): State
    requires |key| == 32 && |iv| == 8
  {
    [0x61707865, 0x3320646e, 0x79622d32, 0x6b206574] + Words(key) + [lo, hi] + Words(iv)
  }

  /** The block number as a 64-bit word. */
  function Counter(k: nat): bv64
  {
    if k == 0 then 0 else Counter(k - 1) + 1
  }

  function LowWord(n: bv64): bv32
  {
    (n & 0xFFFF_FFFF) as bv32
  }

  function HighWord(n: bv64): bv32
  {
    (n >> 32) as bv32
  }

  function Bytes(ws: seq<bv32>): (b: seq<bv8>)
    ensures |b| == 4 * |ws|
  {
    seq(4 * |ws|, i requires 0 <= i < 4 * |ws| => Store(ws[i / 4])[i % 4])
  }

  function KeyBlock(key: seq<bv8>, iv: seq<bv8>, n: bv64): (b: seq<bv8>)
    requires |key| == 32 && |iv| == 8
    ensures |b| == BLOCK
  {
    Bytes(Mixed(Input(key, iv, LowWord(n), HighWord(n))))
  }

  /** The byte of the keystream at position i. */
  function Stream(key: seq<bv8>, iv: seq<bv8>, i: nat): bv8
    requires |key| == 32 && |iv| == 8
  {
    KeyBlock(key, iv, Counter(i / BLOCK))[i % BLOCK]
  }

  function Enciphered(data: seq<bv8>, key: seq<bv8>, iv: seq<bv8>): (c: seq<bv8>)
    requires |key| == 32 && |iv| == 8
    ensures |c| == |data|
  {
    seq(|data|, i requires 0 <= i < |data| => data[i] ^ Stream(key, iv, i))
  }

  lemma XorTwice(x: bv8, y: bv8)
    ensures (x ^ y) ^ y == x
  {
  }

  /** Applying the cipher twice with one key and iv restores the input. */
  lemma Involution(data: seq<bv8>, key: seq<bv8>, iv: seq<bv8>)
    requires |key| == 32 && |iv| == 8
    ensures Enciphered(Enciphered(data, key, iv), key, iv) == data
  {
    hide Stream;
    var twice := Enciphered(Enciphered(data, key, iv), key, iv);
    forall i | 0 <= i < |data| ensures twice[i] == data[i] {
      XorTwice(data[i], Stream(key, iv, i));
    }
  }

  /** A prefix of the input gives a prefix of the output. */
  lemma PrefixOfInput(data: seq<bv8>, n: nat, key: seq<bv8>, iv: seq<bv8>)
    requires |key| == 32 && |iv| == 8 && n <= |data|
    ensures Enciphered(data[..n], key, iv) == Enciphered(data, key, iv)[..n]
  {
    hide Stream;
  }

  // ----- the loop -----

  /** Incrementing j12 with its carry into j13 is a 64-bit increment. */
  lemma CounterCarries(n: bv64)
    ensures LowWord(n + 1) == LowWord(n) + 1
    ensures HighWord(n + 1) == if LowWord(n) + 1 == 0 then HighWord(n) + 1 else HighWord(n)
  {
  }

  /** Mixing a word of data into a word of keystream works byte by byte. */
  lemma XorByBytes(w: bv32, d: seq<bv8>)
    requires |d| == 4
    ensures forall k :: 0 <= k < 4 ==> Store(w ^ Load(d))[k] == d[k] ^ Store(w)[k]
  {
  }

  /** The sixteen words of keystream with the block of data mixed in. */
  function MixedIn(x: State, block: seq<bv8>): (b: seq<bv8>)
    requires |block| == BLOCK
    ensures |b| == BLOCK
  {
    Bytes(seq(16, i requires 0 <= i < 16 => x[i] ^ Load(block[4 * i..4 * i + 4])))
  }

  lemma MixedInBytes(x: State, block: seq<bv8>, i: nat)
    requires |block| == BLOCK && i < BLOCK
    ensures MixedIn(x, block)[i] == block[i] ^ Bytes(x)[i]
  {
    hide Load, Store;
    var w, k := i / 4, i % 4;
    assert i == 4 * w + k;
    var d := block[4 * w..4 * w + 4];
    XorByBytes(x[w], d);
    assert d[k] == block[i];
  }

  /** The rounds run downwards two at a time; then the input is added. */
  method Scramble(j: State) returns (x: State)
    ensures x == Mixed(j)
  {
    hide Rounds, DoubleRound;
    x := j;
    var i: nat := 8;
    while i > 0
      invariant i % 2 == 0 && i <= 8 && Rounds(x, i / 2) == Rounds(j, 4)
    {
      RoundsStep(x, i / 2);
      x := DoubleRound(x);
      i := i - 2;
    }
    RoundsStep(x, 0);
    x := seq(16, i requires 0 <= i < 16 => Plus(x[i], j[i]));
  }

  lemma RoundsStep(s: State, n: nat)
    ensures Rounds(s, n) == if n == 0 then s else Rounds(DoubleRound(s), n - 1)
  {
    hide DoubleRound;
  }

  /** No block is written over input that is still to be read. */
  predicate Apart(data: nat, cipher: nat, length: nat)
  {
    cipher <= data || data + length <= cipher || length <= BLOCK
  }

  /** Nothing but the range has changed. */
  predicate SameBut(was: seq<bv8>, now: seq<bv8>, from: nat, to: nat)
  {
    |was| == |now| && forall i :: 0 <= i < |was| && !(from <= i < to) ==> now[i] == was[i]
  }

  /** The next piece of the input is still there. */
  lemma Unread(was: seq<bv8>, now: seq<bv8>, data: nat, cipher: nat, length: nat, done: nat, n: nat)
    requires SameBut(was, now, cipher, cipher + done) && Apart(data, cipher, length)
    requires done + n <= length && data + length <= |was| && (length <= BLOCK ==> done == 0)
    ensures now[data + done..data + done + n] == was[data..data + length][done..done + n]
  {
    var x, y := now[data + done..data + done + n], was[data..data + length][done..done + n];
    forall i | 0 <= i < n ensures x[i] == y[i] {
      assert x[i] == now[data + done + i] && y[i] == was[data + (done + i)];
    }
  }

  /** What was written before stays, and the new piece comes behind it. */
  lemma Extended(now: seq<bv8>, after: seq<bv8>, cipher: nat, done: nat, n: nat, output: seq<bv8>)
    requires done + n <= |output| && cipher + done + n <= |now|
    requires SameBut(now, after, cipher + done, cipher + done + n)
    requires now[cipher..cipher + done] == output[..done]
    requires after[cipher + done..cipher + done + n] == output[done..done + n]
    ensures after[cipher..cipher + (done + n)] == output[..done + n]
  {
    assert after[cipher..cipher + (done + n)] == after[cipher..cipher + done] + after[cipher + done..cipher + done + n];
    assert after[cipher..cipher + done] == now[cipher..cipher + done];
    assert output[..done + n] == output[..done] + output[done..done + n];
  }

  /** The first `done` bytes are written, and nothing else is. */
  ghost predicate Progress(was: seq<bv8>, now: seq<bv8>, data: nat, cipher: nat, length: nat, done: nat,
                           output: seq<bv8>)
  {
    |output| == length && done <= length && data + length <= |was| && cipher + length <= |was| &&
    SameBut(was, now, cipher, cipher + done) &&
    (Apart(data, cipher, length) ==> now[cipher..cipher + done] == output[..done])
  }

  lemma ProgressStarts(was: seq<bv8>, data: nat, cipher: nat, length: nat, output: seq<bv8>)
    requires |output| == length && data + length <= |was| && cipher + length <= |was|
    ensures Progress(was, was, data, cipher, length, 0, output)
  {
  }

  /** A turn writes the output for its piece of the input, if that is what it finds. */
  ghost predicate Turned(now: seq<bv8>, after: seq<bv8>, from: nat, to: nat, n: nat, input: seq<bv8>, at: nat,
                         output: seq<bv8>)
  {
    |now| == |after| && from + n <= |now| && to + n <= |now| && at + n <= |input| == |output| &&
    (now[from..from + n] == input[at..at + n] ==> after[to..to + n] == output[at..at + n])
  }

  /** A turn that enciphers its piece of the input, if that is still there, goes on. */
  lemma ProgressGoesOn(was: seq<bv8>, now: seq<bv8>, after: seq<bv8>, data: nat, cipher: nat, length: nat, done: nat,
                       n: nat, output: seq<bv8>)
    requires Progress(was, now, data, cipher, length, done, output)
    requires done + n <= length && (length <= BLOCK ==> done == 0)
    requires SameBut(now, after, cipher + done, cipher + done + n)
    requires data + length <= |was|
    requires Turned(now, after, data + done, cipher + done, n, was[data..data + length], done, output)
    ensures Progress(was, after, data, cipher, length, done + n, output)
  {
    if Apart(data, cipher, length) {
      Unread(was, now, data, cipher, length, done, n);
      Extended(now, after, cipher, done, n, output);
    }
  }

  /**
    chacha8 on two ranges of one memory: full blocks go straight through, the last partial one by way of a temporary
    buffer.  The output may be the input itself, or overlap it from below, as every block is read before it is written.
   */
  method Encipher(mem: array<bv8>, data: nat, cipher: nat, length: nat, key: seq<bv8>, iv: seq<bv8>)
    requires |key| == 32 && |iv| == 8 && data + length <= mem.Length && cipher + length <= mem.Length
    modifies mem
    ensures Apart(data, cipher, length) ==>
              mem[..][cipher..cipher + length] == Enciphered(old(mem[..])[data..data + length], key, iv)
    ensures SameBut(old(mem[..]), mem[..], cipher, cipher + length)
  {
    hide LowWord, HighWord, Enciphered, Counter, SameBut, Progress, Apart, Turned;
    ghost var was := mem[..];
    ghost var input := was[data..data + length];
    ghost var output := Enciphered(input, key, iv);
    var tmp := new bv8[BLOCK](_ => 0);
    var j12: bv32, j13: bv32 := 0, 0;
    var done := 0;
    ghost var k := 0;
    CounterStarts();
    ProgressStarts(was, data, cipher, length, output);
    while done < length
      invariant 0 <= done <= length && (done < length ==> done == BLOCK * k)
      invariant j12 == LowWord(Counter(k)) && j13 == HighWord(Counter(k))
      invariant Progress(was, mem[..], data, cipher, length, done, output)
    {
      var n := if length - done < BLOCK then length - done else BLOCK;
      ghost var now := mem[..];
      assert length <= BLOCK ==> done == 0;
      j12, j13 := EncipherBlock(mem, data + done, cipher + done, n, key, iv, j12, j13, tmp, input, done, k);
      ProgressGoesOn(was, now, mem[..], data, cipher, length, done, n, output);
      done := done + n;
      k := k + 1;
    }
    ProgressEnds(was, mem[..], data, cipher, length, output);
  }

  lemma ProgressEnds(was: seq<bv8>, now: seq<bv8>, data: nat, cipher: nat, length: nat, output: seq<bv8>)
    requires Progress(was, now, data, cipher, length, length, output)
    ensures SameBut(was, now, cipher, cipher + length) && cipher + length <= |now|
    ensures Apart(data, cipher, length) ==> now[cipher..cipher + length] == output
  {
    assert output[..length] == output;
  }

  /** One turn of the loop. */
  method EncipherBlock(mem: array<bv8>, from: nat, to: nat, n: nat, key: seq<bv8>, iv: seq<bv8>, j12: bv32, j13: bv32,
                       tmp: array<bv8>, ghost input: seq<bv8>, ghost at: nat, ghost k: nat)
    returns (next12: bv32, next13: bv32)
    requires |key| == 32 && |iv| == 8 && tmp.Length == BLOCK && tmp != mem
    requires n <= BLOCK && from + n <= mem.Length && to + n <= mem.Length && at == BLOCK * k && at + n <= |input|
    requires j12 == LowWord(Counter(k)) && j13 == HighWord(Counter(k))
    modifies mem, tmp
    ensures Turned(old(mem[..]), mem[..], from, to, n, input, at, Enciphered(input, key, iv))
    ensures SameBut(old(mem[..]), mem[..], to, to + n)
    ensures next12 == LowWord(Counter(k + 1)) && next13 == HighWord(Counter(k + 1))
  {
    hide Mixed, Input, MixedIn, LowWord, HighWord, Enciphered, Counter;
    var piece := mem[from..from + n];
    var block := LoadBlock(piece, tmp);
    var x := Scramble(Input(key, iv, j12, j13));
    var out := MixedIn(x, block);
    if piece == input[BLOCK * k..BLOCK * k + n] {
      BlockOfStream(input, key, iv, k, n, block, out);
    }
    WriteBlock(mem, to, out[..n]);
    next12, next13 := NextCounter(j12, j13, k);
  }

  method NextCounter(j12: bv32, j13: bv32, ghost k: nat) returns (next12: bv32, next13: bv32)
    requires j12 == LowWord(Counter(k)) && j13 == HighWord(Counter(k))
    ensures next12 == LowWord(Counter(k + 1)) && next13 == HighWord(Counter(k + 1))
  {
    hide LowWord, HighWord, Counter;
    CounterGoesOn(k);
    next12, next13 := j12 + 1, j13;
    if next12 == 0 { next13 := next13 + 1; }
  }

  method WriteBlock(mem: array<bv8>, at: nat, bytes: seq<bv8>)
    requires at + |bytes| <= mem.Length
    modifies mem
    ensures mem[at..at + |bytes|] == bytes
    ensures forall i :: 0 <= i < mem.Length && !(at <= i < at + |bytes|) ==> mem[i] == old(mem[i])
  {
    forall i | at <= i < at + |bytes| { mem[i] := bytes[i - at]; }
  }

  /** A short last piece is copied over whatever the temporary buffer held. */
  method LoadBlock(piece: seq<bv8>, tmp: array<bv8>) returns (block: seq<bv8>)
    requires tmp.Length == BLOCK && |piece| <= BLOCK
    modifies tmp
    ensures |block| == BLOCK && block[..|piece|] == piece
  {
    if |piece| < BLOCK {
      forall i | 0 <= i < |piece| { tmp[i] := piece[i]; }
      block := tmp[..];
    } else {
      block := piece;
    }
  }

  lemma CounterStarts()
    ensures LowWord(Counter(0)) == 0 && HighWord(Counter(0)) == 0
  {
  }

  lemma CounterGoesOn(k: nat)
    ensures LowWord(Counter(k + 1)) == LowWord(Counter(k)) + 1
    ensures HighWord(Counter(k + 1)) ==
            if LowWord(Counter(k)) + 1 == 0 then HighWord(Counter(k)) + 1 else HighWord(Counter(k))
  {
    CounterCarries(Counter(k));
  }

  /** The bytes written for block k are those of the cipher at its positions. */
  lemma BlockOfStream(data: seq<bv8>, key: seq<bv8>, iv: seq<bv8>, k: nat, n: nat, block: seq<bv8>, out: seq<bv8>)
    requires |key| == 32 && |iv| == 8 && |block| == BLOCK && n <= BLOCK && BLOCK * k + n <= |data|
    requires block[..n] == data[BLOCK * k..BLOCK * k + n]
    requires out == MixedIn(Mixed(Input(key, iv, LowWord(Counter(k)), HighWord(Counter(k)))), block)
    ensures Enciphered(data, key, iv)[BLOCK * k..BLOCK * k + n] == out[..n]
  {
    hide Mixed, Input, MixedIn, LowWord, HighWord, Counter, Bytes, Enciphered;
    forall i | 0 <= i < n ensures out[i] == Enciphered(data, key, iv)[BLOCK * k + i] {
      assert block[i] == block[..n][i] && data[BLOCK * k + i] == data[BLOCK * k..BLOCK * k + n][i];
      ByteOfStream(data, key, iv, k, block, i);
    }
  }

  lemma ByteOfStream(data: seq<bv8>, key: seq<bv8>, iv: seq<bv8>, k: nat, block: seq<bv8>, i: nat)
    requires |key| == 32 && |iv| == 8 && |block| == BLOCK
    requires i < BLOCK && BLOCK * k + i < |data| && block[i] == data[BLOCK * k + i]
    ensures MixedIn(Mixed(Input(key, iv, LowWord(Counter(k)), HighWord(Counter(k)))), block)[i] ==
            Enciphered(data, key, iv)[BLOCK * k + i]
  {
    hide Mixed, Input, MixedIn, LowWord, HighWord, Counter, Bytes;
    MixedInBytes(Mixed(Input(key, iv, LowWord(Counter(k)), HighWord(Counter(k)))), block, i);
    BlockPosition(k, i);
  }

  lemma BlockPosition(k: nat, i: nat)
    requires i < BLOCK
    ensures (BLOCK * k + i) / BLOCK == k && (BLOCK * k + i) % BLOCK == i
  {
  }
}
