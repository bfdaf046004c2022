/** The block function of src/crypto/chacha8.c against the text of RFC 8439, and the layout of its input. */
module ChaChaBlock {
  import opened ChaCha8

  datatype Four = Four(a: bv32, b: bv32, c: bv32, d: bv32)

  /** Section 2.1 of RFC 8439: four times add, exclusive or and rotate by 16, 12, 8 and 7 bits. */
  function Quarter(x: Four): Four
  {
    var a1 := Plus(x.a, x.b);
    var d1 := Turn(x.d, a1, 16);
    var c1 := Plus(x.c, d1);
    var b1 := Turn(x.b, c1, 12);
    var a2 := Plus(a1, b1);
    var d2 := Turn(d1, a2, 8);
    var c2 := Plus(c1, d2);
    Four(a2, Turn(b1, c2, 7), c2, d2)
  }

  function Pick(s: State, a: nat, b: nat, c: nat, d: nat): Four
    requires a < 16 && b < 16 && c < 16 && d < 16
  {
    Four(s[a], s[b], s[c], s[d])
  }

  /** A quarter round on four places of the state changes these and no others. */
  lemma QuarterRoundIs(s: State, a: nat, b: nat, c: nat, d: nat)
    requires a < 16 && b < 16 && c < 16 && d < 16 && a != b && a != c && a != d && b != c && b != d && c != d
    ensures var r := QuarterRound(s, a, b, c, d);
      Pick(r, a, b, c, d) == Quarter(Pick(s, a, b, c, d)) &&
      forall i :: 0 <= i < 16 && i != a && i != b && i != c && i != d ==> r[i] == s[i]
  {
    hide Plus, Turn;
  }

  /** The example of section 2.1.1 of RFC 8439. */
  lemma QuarterExample()
    ensures Quarter(Four(0x11111111, 0x01020304, 0x9b8d6f43, 0x01234567)) ==
            Four(0xea2a92f4, 0xcb1cf8ce, 0x4581472e, 0x5881c4bb)
  {
    hide Plus, Turn;
    Sums();
    FirstTurns();
    LastTurns();
  }

  lemma Sums()
    ensures Plus(0x11111111, 0x01020304) == 0x12131415 && Plus(0x9b8d6f43, 0x51721330) == 0xecff8273
    ensures Plus(0x12131415, 0xd8177edf) == 0xea2a92f4 && Plus(0xecff8273, 0x5881c4bb) == 0x4581472e
  {
  }

  /** A rotation is a shift and what it pushed out. */
  lemma TurnShifts(x: bv32, y: bv32)
    ensures Turn(x, y, 16) == ((x ^ y) << 16) | ((x ^ y) >> 16) && Turn(x, y, 12) == ((x ^ y) << 12) | ((x ^ y) >> 20)
    ensures Turn(x, y, 8) == ((x ^ y) << 8) | ((x ^ y) >> 24) && Turn(x, y, 7) == ((x ^ y) << 7) | ((x ^ y) >> 25)
  {
  }

  lemma FirstTurns()
    ensures Turn(0x01234567, 0x12131415, 16) == 0x51721330 && Turn(0x01020304, 0xecff8273, 12) == 0xd8177edf
  {
    hide Turn;
    TurnShifts(0x01234567, 0x12131415);
    TurnShifts(0x01020304, 0xecff8273);
  }

  lemma LastTurns()
    ensures Turn(0x51721330, 0xea2a92f4, 8) == 0x5881c4bb && Turn(0xd8177edf, 0x4581472e, 7) == 0xcb1cf8ce
  {
    hide Turn;
    TurnShifts(0x51721330, 0xea2a92f4);
    TurnShifts(0xd8177edf, 0x4581472e);
  }

  /** The same columns of two states: one is the other after a quarter round on column j. */
  predicate ColumnDone(s: State, m: State, j: nat)
    requires j < 4
  {
    Pick(m, j, j + 4, j + 8, j + 12) == Quarter(Pick(s, j, j + 4, j + 8, j + 12))
  }

  /** The diagonal that starts in column j, going down and to the right. */
  predicate DiagonalDone(m: State, r: State, j: nat)
    requires j < 4
  {
    Pick(r, j, (j + 1) % 4 + 4, (j + 2) % 4 + 8, (j + 3) % 4 + 12) ==
    Quarter(Pick(m, j, (j + 1) % 4 + 4, (j + 2) % 4 + 8, (j + 3) % 4 + 12))
  }

  function Columns(s: State): State
  {
    var s := QuarterRound(s, 0, 4, 8, 12);
    var s := QuarterRound(s, 1, 5, 9, 13);
    var s := QuarterRound(s, 2, 6, 10, 14);
    QuarterRound(s, 3, 7, 11, 15)
  }

  function Diagonals(s: State): State
  {
    var s := QuarterRound(s, 0, 5, 10, 15);
    var s := QuarterRound(s, 1, 6, 11, 12);
    var s := QuarterRound(s, 2, 7, 8, 13);
    QuarterRound(s, 3, 4, 9, 14)
  }

  lemma ColumnsDone(s: State, j: nat)
    requires j < 4
    ensures ColumnDone(s, Columns(s), j)
  {
    hide QuarterRound, Quarter;
    var s1 := QuarterRound(s, 0, 4, 8, 12);
    var s2 := QuarterRound(s1, 1, 5, 9, 13);
    var s3 := QuarterRound(s2, 2, 6, 10, 14);
    QuarterRoundIs(s, 0, 4, 8, 12);
    QuarterRoundIs(s1, 1, 5, 9, 13);
    QuarterRoundIs(s2, 2, 6, 10, 14);
    QuarterRoundIs(s3, 3, 7, 11, 15);
  }

  lemma DiagonalsDone(s: State)
    ensures var r := Diagonals(s);
      DiagonalDone(s, r, 0) && DiagonalDone(s, r, 1) && DiagonalDone(s, r, 2) && DiagonalDone(s, r, 3)
  {
    hide QuarterRound, Quarter;
    var s1 := QuarterRound(s, 0, 5, 10, 15);
    var s2 := QuarterRound(s1, 1, 6, 11, 12);
    var s3 := QuarterRound(s2, 2, 7, 8, 13);
    QuarterRoundIs(s, 0, 5, 10, 15);
    QuarterRoundIs(s1, 1, 6, 11, 12);
    QuarterRoundIs(s2, 2, 7, 8, 13);
    QuarterRoundIs(s3, 3, 4, 9, 14);
  }

  /** Two rounds: a quarter round on every column, then one on every diagonal (section 2.3 of RFC 8439). */
  lemma DoubleRoundIs(s: State) returns (m: State)
    ensures forall j :: 0 <= j < 4 ==> ColumnDone(s, m, j) && DiagonalDone(m, DoubleRound(s), j)
  {
    hide QuarterRound, ColumnDone, DiagonalDone;
    m := Columns(s);
    assert DoubleRound(s) == Diagonals(m);
    hide DoubleRound, Columns, Diagonals;
    DiagonalsDone(m);
    forall j | 0 <= j < 4 ensures ColumnDone(s, m, j) && DiagonalDone(m, DoubleRound(s), j) {
      ColumnsDone(s, j);
    }
  }

  lemma FourDoubles(j: State)
    ensures Rounds(j, 4) == DoubleRound(DoubleRound(DoubleRound(DoubleRound(j))))
  {
    hide DoubleRound, Rounds;
    var j1 := DoubleRound(j);
    var j2 := DoubleRound(j1);
    var j3 := DoubleRound(j2);
    RoundsStep(j, 4);
    RoundsStep(j1, 3);
    RoundsStep(j2, 2);
    RoundsStep(j3, 1);
    RoundsStep(DoubleRound(j3), 0);
  }

  /** Eight rounds, and the input added word by word. */
  lemma MixedIs(j: State, i: nat)
    requires i < 16
    ensures Mixed(j)[i] == Plus(DoubleRound(DoubleRound(DoubleRound(DoubleRound(j))))[i], j[i])
  {
    hide DoubleRound, Rounds, Plus;
    FourDoubles(j);
  }

  // ----- the input -----


  lemma StoreLoad(b: seq<bv8>)
    requires |b| == 4
    ensures Store(Load(b)) == b
  {
  }

  lemma WordOfBytes(b: seq<bv8>, i: nat)
    requires |b| % 4 == 0 && i < |b|
    ensures Store(Words(b)[i / 4])[i % 4] == b[i]
  {
    hide Store, Load;
    StoreLoad(b[4 * (i / 4)..4 * (i / 4) + 4]);
  }

  lemma KeyPart(key: seq<bv8>, iv: seq<bv8>, lo: bv32, hi: bv32, i: nat)
    requires |key| == 32 && |iv| == 8 && i < 32
    ensures Bytes(Input(key, iv, lo, hi))[16 + i] == key[i]
  {
    hide Store, Load, Words;
    var ws := Input(key, iv, lo, hi);
    assert ws[(16 + i) / 4] == Words(key)[i / 4] && (16 + i) % 4 == i % 4;
    WordOfBytes(key, i);
  }

  lemma IvPart(key: seq<bv8>, iv: seq<bv8>, lo: bv32, hi: bv32, i: nat)
    requires |key| == 32 && |iv| == 8 && i < 8
    ensures Bytes(Input(key, iv, lo, hi))[56 + i] == iv[i]
  {
    hide Store, Load, Words;
    var ws := Input(key, iv, lo, hi);
    assert ws[(56 + i) / 4] == Words(iv)[i / 4] && (56 + i) % 4 == i % 4;
    WordOfBytes(iv, i);
  }

  lemma OtherParts(key: seq<bv8>, iv: seq<bv8>, lo: bv32, hi: bv32)
    requires |key| == 32 && |iv| == 8
    ensures var t := Bytes(Input(key, iv, lo, hi));
      (forall i :: 0 <= i < 16 ==> t[i] == Constant()[i]) &&
      forall i :: 0 <= i < 4 ==> t[48 + i] == Store(lo)[i] && t[52 + i] == Store(hi)[i]
  {
    hide Store, Load, Words, Constant;
    var ws := Input(key, iv, lo, hi);
    ConstantWords();
    assert ws[12] == lo && ws[13] == hi;
    assert ws[..4] == [0x61707865, 0x3320646e, 0x79622d32, 0x6b206574];
  }

  /** The constant, the key, the block number and the iv, as bytes: sixteen, thirty-two, eight and eight. */
  lemma InputBytes(key: seq<bv8>, iv: seq<bv8>, lo: bv32, hi: bv32)
    requires |key| == 32 && |iv| == 8
    ensures var t := Bytes(Input(key, iv, lo, hi));
      t[..16] == Constant() && t[16..48] == key && t[48..52] == Store(lo) && t[52..56] == Store(hi) && t[56..] == iv
  {
    hide Store, Input, Bytes, Constant;
    var t := Bytes(Input(key, iv, lo, hi));
    OtherParts(key, iv, lo, hi);
    forall i | 0 <= i < 32 ensures t[16 + i] == key[i] { KeyPart(key, iv, lo, hi, i); }
    forall i | 0 <= i < 8 ensures t[56 + i] == iv[i] { IvPart(key, iv, lo, hi, i); }
  }

  /** The characters of "expand 32-byte k". */
  function Constant(): (b: seq<bv8>)
    ensures |b| == 16
  {
    [0x65, 0x78, 0x70, 0x61, 0x6e, 0x64, 0x20, 0x33, 0x32, 0x2d, 0x62, 0x79, 0x74, 0x65, 0x20, 0x6b]
  }

  lemma ConstantWords()
    ensures forall i :: 0 <= i < 16 ==>
              Store([0x61707865, 0x3320646e, 0x79622d32, 0x6b206574][i / 4])[i % 4] == Constant()[i]
  {
    assert Store(0x61707865) == [0x65, 0x78, 0x70, 0x61];
    assert Store(0x3320646e) == [0x6e, 0x64, 0x20, 0x33];
    assert Store(0x79622d32) == [0x32, 0x2d, 0x62, 0x79];
    assert Store(0x6b206574) == [0x74, 0x65, 0x20, 0x6b];
  }

  /** Words are stored with the low byte first. */
  lemma LowByteFirst()
    ensures Store(0x04030201) == [1, 2, 3, 4]
  {
  }

  /** The keystream is mixed block by block, with a block number that starts at zero and carries into its high word. */
  lemma StreamRuns(key: seq<bv8>, iv: seq<bv8>, n: nat) returns (lo: seq<bv32>, hi: seq<bv32>)
    requires |key| == 32 && |iv| == 8
    ensures |lo| == |hi| == n + 1 && lo[0] == 0 && hi[0] == 0
    ensures forall j :: 0 <= j < n ==>
              lo[j + 1] == lo[j] + 1 && hi[j + 1] == if lo[j] + 1 == 0 then hi[j] + 1 else hi[j]
    ensures forall j, i :: 0 <= j <= n && 0 <= i < 64 ==>
              Stream(key, iv, 64 * j + i) == Bytes(Mixed(Input(key, iv, lo[j], hi[j])))[i]
  {
    hide LowWord, HighWord, Counter, Bytes, Mixed, Input, Stream;
    lo := seq(n + 1, j requires 0 <= j <= n => LowWord(Counter(j)));
    hi := seq(n + 1, j requires 0 <= j <= n => HighWord(Counter(j)));
    CounterStarts();
    forall j | 0 <= j < n
      ensures lo[j + 1] == lo[j] + 1 && hi[j + 1] == if lo[j] + 1 == 0 then hi[j] + 1 else hi[j]
    {
      CounterGoesOn(j);
    }
    forall j, i | 0 <= j <= n && 0 <= i < 64
      ensures Stream(key, iv, 64 * j + i) == Bytes(Mixed(Input(key, iv, lo[j], hi[j])))[i]
    {
      StreamAt(key, iv, j, i);
    }
  }

  lemma StreamAt(key: seq<bv8>, iv: seq<bv8>, j: nat, i: nat)
    requires |key| == 32 && |iv| == 8 && i < 64
    ensures Stream(key, iv, 64 * j + i) == Bytes(Mixed(Input(key, iv, LowWord(Counter(j)), HighWord(Counter(j)))))[i]
  {
    hide LowWord, HighWord, Counter, Bytes, Mixed, Input;
    assert (64 * j + i) / 64 == j && (64 * j + i) % 64 == i;
  }
}
