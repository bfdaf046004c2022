/** Block base58 (src/Common/base58.cpp): eight bytes to eleven symbols, with shorter last blocks. */
module Base58 {
  import opened Words
  import opened Positional
  import WideArith
  import Varint

  /** The digits and letters without 0, I, O and l, written run by run. */
  const ALPHABET: string :=
    "123456789" + "ABCDEFGH" + "JKLMN" + "PQRSTUVWXYZ" + "abcdefghijk" + "mnopqrstuvwxyz"
  const FULL_BLOCK: nat := 8
  const FULL_ENCODED: nat := 11
  const CHECKSUM: nat := 4

  /** encoded_block_sizes */
  function EncodedSize(n: nat): nat
    requires n <= FULL_BLOCK
  {
    [0, 2, 3, 5, 6, 7, 9, 10, 11][n]
  }

  /** decoded_block_sizes as a partial inverse: -1 where no block has that many symbols. */
  function DecodedSize(e: nat): int
    requires e <= FULL_ENCODED
  {
    [0, -1, 1, 2, -1, 3, 4, 5, -1, 6, 7, 8][e]
  }

  // ----- the alphabet and its inverse -----

  /** `n` consecutive characters. */
  function Run(first: char, n: nat): (s: string)
    requires first as int + n < 128
    ensures |s| == n && forall k :: 0 <= k < n ==> s[k] == first + k as char
  {
    if n == 0 then "" else Run(first, n - 1) + [first + (n - 1) as char]
  }

  /** The six runs of consecutive characters that make up the alphabet. */
  function Symbol(i: nat): (c: char)
    requires i < 58
  {
    if i < 9 then '1' + i as char
    else if i < 17 then 'A' + (i - 9) as char
    else if i < 22 then 'J' + (i - 17) as char
    else if i < 33 then 'P' + (i - 22) as char
    else if i < 44 then 'a' + (i - 33) as char
    else 'm' + (i - 44) as char
  }

  lemma AlphabetIs(i: nat)
    requires i < 58
    ensures |ALPHABET| == 58 && ALPHABET[i] == Symbol(i)
  {
    AlphabetRuns();
  }

  lemma AlphabetRuns()
    ensures ALPHABET == Run('1', 9) + Run('A', 8) + Run('J', 5) + Run('P', 11) + Run('a', 11) + Run('m', 14)
  {
    FirstRuns();
    LastRuns();
  }

  lemma FirstRuns()
    ensures Run('1', 9) == "123456789" && Run('A', 8) == "ABCDEFGH" && Run('J', 5) == "JKLMN"
  {
  }

  lemma LastRuns()
    ensures Run('P', 11) == "PQRSTUVWXYZ" && Run('a', 11) == "abcdefghijk" && Run('m', 14) == "mnopqrstuvwxyz"
  {
  }

  /** The position of a symbol in the alphabet, -1 for any other character. */
  ghost function Digit(c: char): (d: int)
    ensures -1 <= d < 58
    ensures d >= 0 ==> Symbol(d) == c
    ensures d < 0 ==> forall i: nat :: i < 58 ==> Symbol(i) != c
  {
    if d: nat :| d < 58 && Symbol(d) == c then d else -1
  }

  lemma DigitOfSymbol(i: nat)
    requires i < 58
    ensures Digit(Symbol(i)) == i
  {
  }

  /** The table covers the characters from the first symbol to the last. */
  const SPAN: nat := 'z' as int - '1' as int + 1

  function Slot(c: char): int
  {
    c as int - '1' as int
  }

  function Lookup(table: seq<int>, letter: char): int
  {
    if 0 <= Slot(letter) < |table| then table[Slot(letter)] else -1
  }

  /** reverse_alphabet and decoded_block_sizes, the two tables filled once at start-up. */
  class Tables {
    const reverse: seq<int>
    const sizes: seq<int>

    ghost predicate Valid()
    {
      IsReverse(reverse) && AreSizes(sizes)
    }

    constructor ()
      ensures Valid()
    {
      var letters := ReverseAlphabet();
      var lengths := DecodedSizes();
      reverse, sizes := letters, lengths;
    }
  }

  ghost predicate IsReverse(table: seq<int>)
  {
    forall c: char :: Lookup(table, c) == Digit(c)
  }

  predicate AreSizes(sizes: seq<int>)
  {
    |sizes| == FULL_ENCODED + 1 &&
    forall e :: 0 <= e <= FULL_ENCODED ==> sizes[e] == DecodedSize(e)
  }

  method ReverseAlphabet() returns (data: seq<int>)
    ensures IsReverse(data)
  {
    data := seq(SPAN, _ => -1);
    for i := 0 to 58
      invariant |data| == SPAN
      invariant forall x :: 0 <= x < SPAN ==> -1 <= data[x] < i
      invariant forall x :: 0 <= x < SPAN && data[x] >= 0 ==> Slot(Symbol(data[x])) == x
      invariant forall k: nat :: k < i ==> Lookup(data, Symbol(k)) == k
    {
      AlphabetIs(i);
      data := data[Slot(ALPHABET[i]) := i];
    }
    forall c: char ensures Lookup(data, c) == Digit(c) {
      if Digit(c) >= 0 { DigitOfSymbol(Digit(c)); }
    }
  }

  method DecodedSizes() returns (data: seq<int>)
    ensures AreSizes(data)
  {
    data := seq(FULL_ENCODED + 1, _ => -1);
    for i: nat := 0 to FULL_BLOCK + 1
      invariant |data| == FULL_ENCODED + 1
      invariant forall e :: 0 <= e <= FULL_ENCODED ==>
                  data[e] == if DecodedSize(e) < i then DecodedSize(e) else -1
    {
      data := data[EncodedSize(i) := i];
    }
  }

  // ----- blocks as values -----

  function Symbols(ds: seq<nat>): (t: string)
    requires AreDigits(58, ds)
    ensures |t| == |ds|
  {
    seq(|ds|, i requires 0 <= i < |ds| => Symbol(ds[i]))
  }

  ghost predicate AllSymbols(t: string)
  {
    forall i :: 0 <= i < |t| ==> Digit(t[i]) >= 0
  }

  ghost function SymbolDigits(t: string): (ds: seq<nat>)
    requires AllSymbols(t)
    ensures |ds| == |t| && AreDigits(58, ds)
  {
    seq(|t|, i requires 0 <= i < |t| => Digit(t[i]))
  }

  /** A block of bytes as one number written in base 58, padded to the width of the block. */
  function EncodedBlock(b: seq<byte>): (t: string)
    requires |b| <= FULL_BLOCK
    ensures |t| == EncodedSize(|b|)
  {
    Symbols(Digits(58, Value(256, b), EncodedSize(|b|)))
  }

  /** A block is accepted when its length, its symbols and its value all are in range. */
  ghost predicate GoodBlock(t: string)
  {
    |t| <= FULL_ENCODED && DecodedSize(|t|) > 0 && AllSymbols(t) &&
    Value(58, SymbolDigits(t)) < Pow(256, DecodedSize(|t|))
  }

  ghost function DecodedBlock(t: string): (b: seq<byte>)
    requires GoodBlock(t)
    ensures |b| == DecodedSize(|t|)
  {
    Digits(256, Value(58, SymbolDigits(t)), DecodedSize(|t|))
  }

  /** 256^n <= 58^e(n): every block fits its symbols. */
  lemma BlockFits(n: nat)
    requires n <= FULL_BLOCK
    ensures Pow(256, n) <= Pow(58, EncodedSize(n))
  {
    PowersOf256();
    PowersOf58();
  }

  lemma PowersOf256()
    ensures Pow(256, 0) == 1 && Pow(256, 1) == 0x100 && Pow(256, 2) == 0x1_0000
    ensures Pow(256, 3) == 0x100_0000 && Pow(256, 4) == 0x1_0000_0000
    ensures Pow(256, 5) == 0x100_0000_0000 && Pow(256, 6) == 0x1_0000_0000_0000
    ensures Pow(256, 7) == 0x100_0000_0000_0000 && Pow(256, 8) == TWO64
  {
  }

  lemma PowersOf58()
    ensures Pow(58, 0) == 1 && Pow(58, 2) == 3364 && Pow(58, 3) == 195112
    ensures Pow(58, 5) == 656356768 && Pow(58, 6) == 38068692544 && Pow(58, 7) == 2207984167552
    ensures Pow(58, 9) == 7427658739644928 && Pow(58, 10) == 430804206899405824
    ensures Pow(58, 11) == 24986644000165537792
  {
  }

  lemma BlockRoundTrip(b: seq<byte>)
    requires 1 <= |b| <= FULL_BLOCK
    ensures GoodBlock(EncodedBlock(b)) && DecodedBlock(EncodedBlock(b)) == b
  {
    hide Value, Digits, Pow, Symbol, Digit;
    var n, v := |b|, Value(256, b);
    var ds := Digits(58, v, EncodedSize(n));
    var t := EncodedBlock(b);
    forall i | 0 <= i < |t| ensures Digit(t[i]) == ds[i] {
      DigitOfSymbol(ds[i]);
    }
    assert SymbolDigits(t) == ds;
    ValueBound(256, b);
    BlockFits(n);
    ValueOfDigits(58, v, EncodedSize(n));
    DigitsOfValue(256, b);
  }

  lemma BlockInjective(t: string)
    requires GoodBlock(t)
    ensures EncodedBlock(DecodedBlock(t)) == t
  {
    hide Value, Pow, Digits;
    var ds, n := SymbolDigits(t), DecodedSize(|t|);
    ValueOfDigits(256, Value(58, ds), n);
    DigitsOfValue(58, ds);
    assert EncodedSize(n) == |t|;
  }

  // ----- the block loops -----

  /** uint_8be_to_64: the fall-through switch shifts in one byte after the other. */
  method BytesToWord(data: seq<byte>) returns (res: u64)
    requires 1 <= |data| <= FULL_BLOCK
    ensures res == Value(256, data)
  {
    hide Value, Pow;
    PowersOf256();
    res := 0;
    ValueUnfold(256, []);
    for k := 0 to |data|
      invariant res == Value(256, data[..k])
    {
      ValueUnfold(256, data[..k + 1]);
      assert data[..k + 1][..k] == data[..k];
      ValueBound(256, data[..k + 1]);
      PowMonotone(256, k + 1, 8);
      res := res * 256 + data[k];
    }
    assert data[..|data|] == data;
  }

  lemma ValueUnfold(base: nat, ds: seq<nat>)
    ensures Value(base, ds) == if ds == [] then 0 else Value(base, ds[..|ds| - 1]) * base + ds[|ds| - 1]
  {
  }

  /** uint_64_to_8be: the last `size` bytes of the big-endian word. */
  method WordToBytes(num: u64, size: nat) returns (data: seq<byte>)
    requires 1 <= size <= FULL_BLOCK
    ensures data == Digits(256, num, size)
  {
    DigitsSuffix(256, num, 8, size);
    data := Digits(256, num, 8)[8 - size..];
  }

  /** encode_block: fills its own slice of the buffer from the right and touches nothing else. */
  method EncodeBlock(block: seq<byte>, res: array<char>, off: nat)
    requires 1 <= |block| <= FULL_BLOCK && off + EncodedSize(|block|) <= res.Length
    requires forall k :: off <= k < off + EncodedSize(|block|) ==> res[k] == Symbol(0)
    modifies res
    ensures res[off..off + EncodedSize(|block|)] == EncodedBlock(block)
    ensures forall k :: 0 <= k < res.Length && !(off <= k < off + EncodedSize(|block|)) ==> res[k] == old(res[k])
  {
    hide Value, Pow, Digits, Symbol, EncodedSize, High, Low;
    var e := EncodedSize(|block|);
    var num: nat := BytesToWord(block);
    ghost var v, low: seq<nat> := num, [];
    ValueBound(256, block);
    BlockFits(|block|);
    var i: int := e - 1;
    assert Digits(58, v, e) == Digits(58, num, e) + low;
    while 0 < num
      invariant -1 <= i < e && |low| == e - 1 - i && AreDigits(58, low)
      invariant num < Pow(58, i + 1)
      invariant Digits(58, v, e) == Digits(58, num, i + 1) + low
      invariant forall k :: off <= k <= off + i ==> res[k] == Symbol(0)
      invariant forall k :: 0 <= k < |low| ==> res[off + i + 1 + k] == Symbol(low[k])
      invariant forall k :: 0 <= k < res.Length && !(off <= k < off + e) ==> res[k] == old(res[k])
      decreases num
    {
      PowZero(58);
      PowStep(58, i + 1);
      DivBelow(num, Pow(58, i), 58);
      DigitsUnfold(58, num, i + 1);
      var remainder := Low(num, 58);
      ghost var high := Digits(58, High(num, 58), i);
      assert high + [remainder] + low == high + ([remainder] + low);
      HighSmaller(num);
      num := High(num, 58);
      res[off + i] := Symbol(remainder);
      low := [remainder] + low;
      i := i - 1;
    }
    DigitsOfZero(58, i + 1);
  }

  lemma PowZero(b: nat)
    ensures Pow(b, 0) == 1
  {
  }

  lemma PowStep(b: nat, e: nat)
    requires e > 0
    ensures Pow(b, e) == b * Pow(b, e - 1)
  {
  }

  lemma HighSmaller(v: nat)
    requires v > 0
    ensures High(v, 58) < v
  {
  }

  /** The value of the last symbols of a block; it only grows to the left. */
  ghost function TailValue(t: string, i: nat): nat
    requires i <= |t| && AllSymbols(t[i..])
  {
    Value(58, SymbolDigits(t[i..]))
  }

  lemma TailStep(t: string, i: nat)
    requires i < |t| && Digit(t[i]) >= 0 && AllSymbols(t[i + 1..])
    ensures AllSymbols(t[i..])
    ensures TailValue(t, i) == Digit(t[i]) * Pow(58, |t| - 1 - i) + TailValue(t, i + 1)
  {
    hide Value, Pow, Digit;
    var rest := t[i + 1..];
    assert t[i..] == [t[i]] + rest;
    assert SymbolDigits(t[i..]) == [Digit(t[i])] + SymbolDigits(rest);
    ValueCons(58, Digit(t[i]), SymbolDigits(rest));
  }

  lemma TailBelowWhole(t: string, i: nat)
    requires i <= |t| && AllSymbols(t)
    ensures AllSymbols(t[i..]) && TailValue(t, i) <= Value(58, SymbolDigits(t))
  {
    hide Value, Pow, Digit;
    var ds := SymbolDigits(t);
    assert ds == ds[..i] + ds[i..];
    assert SymbolDigits(t[i..]) == ds[i..];
    ValueConcat(58, ds[..i], ds[i..]);
    MulMonotone(0, Value(58, ds[..i]), Pow(58, |t| - i));
  }

  /** A partial sum of 2^64 or more already refuses the block. */
  lemma OverflowRefused(t: string, i: nat)
    requires i <= |t| <= FULL_ENCODED && AllSymbols(t[i..]) && TailValue(t, i) >= TWO64
    ensures !GoodBlock(t)
  {
    hide Value, Pow, Digit, TailValue;
    if GoodBlock(t) {
      TailBelowWhole(t, i);
      PowersOf256();
      PowMonotone(256, DecodedSize(|t|), 8);
    }
  }

  /** decode_block: right to left with a growing weight, where only a lost carry signals overflow. */
  method DecodeBlock(tables: Tables, block: string, res: array<byte>, off: nat) returns (ok: bool)
    requires tables.Valid() && 1 <= |block| <= FULL_ENCODED
    requires DecodedSize(|block|) > 0 ==> off + DecodedSize(|block|) <= res.Length
    modifies res
    ensures ok == GoodBlock(block)
    ensures ok ==> res[off..off + DecodedSize(|block|)] == DecodedBlock(block)
    ensures forall k :: 0 <= k < res.Length && !(ok && off <= k < off + DecodedSize(|block|)) ==> res[k] == old(res[k])
  {
    hide Value, Pow, Digits, Digit, Lookup, DecodedSize, TailValue;
    var resSize := tables.sizes[|block|];
    if resSize <= 0 {
      return false;
    }
    SizeRange(|block|);
    var resNum: u64, order: u64 := 0, 1;
    TailOfNothing(block);
    PowZero(58);
    var i := |block|;
    while i > 0
      invariant 0 <= i <= |block| && AllSymbols(block[i..])
      invariant resNum == TailValue(block, i)
      invariant i > 0 ==> order == Pow(58, |block| - i)
      invariant res[..] == old(res[..])
    {
      i := i - 1;
      var digit := Lookup(tables.reverse, block[i]);
      if digit < 0 {
        assert Digit(block[i]) < 0;
        return false;
      }
      TailStep(block, i);
      var productLo, productHi := WideArith.Mul128(order, digit);
      var tmp := (resNum + productLo) % TWO64;
      if tmp < resNum || 0 != productHi {
        WideArith.WrappedSum(resNum, productLo);
        ProductTooBig(order, digit, productLo, productHi, resNum);
        OverflowRefused(block, i);
        return false;
      }
      WideArith.WrappedSum(resNum, productLo);
      resNum := tmp;
      PowStep(58, |block| - i);
      WeightFits(|block| - i);
      order := (order * 58) % TWO64;  // wraps only after the eleventh symbol, where it is not used again
    }
    assert block[0..] == block;
    TailBelowWhole(block, 0);
    WholeTail(block);
    if resSize < FULL_BLOCK && Pow(256, resSize) <= resNum {
      return false;
    }
    PowersOf256();
    var bytes := WordToBytes(resNum, resSize);
    forall k | 0 <= k < resSize { res[off + k] := bytes[k]; }
    ok := true;
  }

  lemma SizeRange(e: nat)
    requires e <= FULL_ENCODED
    ensures -1 <= DecodedSize(e) <= FULL_BLOCK
  {
  }

  lemma TailOfNothing(t: string)
    ensures AllSymbols(t[|t|..]) && TailValue(t, |t|) == 0
  {
  }

  lemma WholeTail(t: string)
    requires AllSymbols(t)
    ensures AllSymbols(t[0..]) && TailValue(t, 0) == Value(58, SymbolDigits(t))
  {
    assert t[0..] == t;
  }

  lemma ProductTooBig(order: nat, digit: nat, lo: nat, hi: nat, sum: nat)
    requires hi * TWO64 + lo == order * digit
    requires hi != 0 || sum + lo >= TWO64
    ensures digit * order + sum >= TWO64
  {
  }

  lemma WeightFits(k: nat)
    requires 1 <= k <= FULL_ENCODED
    ensures k < FULL_ENCODED ==> Pow(58, k) < TWO64
  {
    if k < FULL_ENCODED {
      PowersOf58();
      PowMonotone(58, k, 10);
    }
  }

  // ----- strings -----

  function Encoded(data: seq<byte>): string
  {
    if |data| < FULL_BLOCK then EncodedBlock(data)
    else EncodedBlock(data[..FULL_BLOCK]) + Encoded(data[FULL_BLOCK..])
  }

  ghost function Decoded(t: string): Option<seq<byte>>
  {
    if t == [] then Some([])
    else if |t| < FULL_ENCODED then if GoodBlock(t) then Some(DecodedBlock(t)) else None
    else if GoodBlock(t[..FULL_ENCODED]) then
      Prepend(DecodedBlock(t[..FULL_ENCODED]), Decoded(t[FULL_ENCODED..]))
    else None
  }

  lemma {:induction false} DecodeEncode(data: seq<byte>)
    ensures Decoded(Encoded(data)) == Some(data)
    decreases |data|
  {
    hide GoodBlock, EncodedBlock, DecodedBlock;
    if data == [] {
    } else if |data| < FULL_BLOCK {
      BlockRoundTrip(data);
    } else {
      var head, rest := data[..FULL_BLOCK], data[FULL_BLOCK..];
      BlockRoundTrip(head);
      DecodeEncode(rest);
      var t := Encoded(data);
      assert t[..FULL_ENCODED] == EncodedBlock(head);
      assert t[FULL_ENCODED..] == Encoded(rest);
      assert data == head + rest;
    }
  }

  lemma {:induction false} EncodeDecode(t: string)
    requires Decoded(t).Some?
    ensures Encoded(Decoded(t).value) == t
    decreases |t|
  {
    hide GoodBlock, EncodedBlock, DecodedBlock;
    if t == [] {
    } else if |t| < FULL_ENCODED {
      BlockInjective(t);
      ShortBlock(t);
    } else {
      var head, rest := t[..FULL_ENCODED], t[FULL_ENCODED..];
      BlockInjective(head);
      EncodeDecode(rest);
      var d := Decoded(t).value;
      assert d[..FULL_BLOCK] == DecodedBlock(head);
      assert d[FULL_BLOCK..] == Decoded(rest).value;
      assert t == head + rest;
    }
  }

  lemma ShortBlock(t: string)
    requires |t| < FULL_ENCODED && GoodBlock(t)
    ensures DecodedSize(|t|) < FULL_BLOCK
  {
  }

  /** The loop over the full blocks of encode. */
  method EncodeFullBlocks(data: seq<byte>, blocks: nat, res: array<char>)
    requires blocks * FULL_BLOCK <= |data| && blocks * FULL_ENCODED <= res.Length
    requires forall k :: 0 <= k < res.Length ==> res[k] == Symbol(0)
    modifies res
    ensures Encoded(data) == res[..blocks * FULL_ENCODED] + Encoded(data[blocks * FULL_BLOCK..])
    ensures forall k :: blocks * FULL_ENCODED <= k < res.Length ==> res[k] == Symbol(0)
  {
    hide Encoded, EncodedBlock, Symbol, EncodedSize;
    for i := 0 to blocks
      invariant Encoded(data) == res[..i * FULL_ENCODED] + Encoded(data[i * FULL_BLOCK..])
      invariant forall k :: i * FULL_ENCODED <= k < res.Length ==> res[k] == Symbol(0)
    {
      ghost var before, rest := res[..i * FULL_ENCODED], data[(i + 1) * FULL_BLOCK..];
      var block := data[i * FULL_BLOCK..(i + 1) * FULL_BLOCK];
      assert data[i * FULL_BLOCK..] == block + rest;
      EncodedUnfold(block, rest);
      FullSizes();
      EncodeBlock(block, res, i * FULL_ENCODED);
      assert res[..(i + 1) * FULL_ENCODED] == before + EncodedBlock(block);
    }
  }

  method Encode(data: seq<byte>) returns (text: string)
    ensures text == Encoded(data)
  {
    hide Encoded, EncodedBlock, Symbol, EncodedSize;
    if data == [] {
      EncodedUnfold([], []);
      return "";
    }
    var blocks, last := |data| / FULL_BLOCK, |data| % FULL_BLOCK;
    var res := new char[blocks * FULL_ENCODED + EncodedSize(last)](_ => Symbol(0));
    EncodeFullBlocks(data, blocks, res);
    ghost var before := res[..blocks * FULL_ENCODED];
    var rest := data[blocks * FULL_BLOCK..];
    EncodedUnfold(rest, []);
    if 0 < last {
      EncodeBlock(rest, res, blocks * FULL_ENCODED);
      assert res[..] == before + EncodedBlock(rest);
    } else {
      assert res[..] == before;
    }
    text := res[..];
  }

  lemma FullSizes()
    ensures EncodedSize(FULL_BLOCK) == FULL_ENCODED && EncodedSize(0) == 0
  {
  }

  lemma EncodedUnfold(block: seq<byte>, rest: seq<byte>)
    requires |block| <= FULL_BLOCK && (|block| < FULL_BLOCK ==> rest == [])
    ensures |block| == FULL_BLOCK ==> Encoded(block + rest) == EncodedBlock(block) + Encoded(rest)
    ensures |block| < FULL_BLOCK ==> Encoded(block) == EncodedBlock(block)
    ensures block == [] ==> EncodedBlock(block) == []
    ensures EncodedSize(0) == 0
  {
    assert (block + rest)[..|block|] == block && (block + rest)[|block|..] == rest;
  }

  /** The loop over the full blocks of decode. */
  method DecodeFullBlocks(tables: Tables, enc: string, blocks: nat, res: array<byte>) returns (ok: bool)
    requires tables.Valid()
    requires blocks * FULL_ENCODED <= |enc| && blocks * FULL_BLOCK <= res.Length
    modifies res
    ensures ok ==> Decoded(enc) == Prepend(res[..blocks * FULL_BLOCK], Decoded(enc[blocks * FULL_ENCODED..]))
    ensures !ok ==> Decoded(enc) == None
  {
    hide GoodBlock, DecodedBlock, IsReverse, Decoded;
    assert res[..0] == [] && enc[0..] == enc;
    PrependNothing(Decoded(enc));
    for i := 0 to blocks
      invariant Decoded(enc) == Prepend(res[..i * FULL_BLOCK], Decoded(enc[i * FULL_ENCODED..]))
    {
      ghost var before, rest := res[..i * FULL_BLOCK], enc[(i + 1) * FULL_ENCODED..];
      var block := enc[i * FULL_ENCODED..(i + 1) * FULL_ENCODED];
      assert enc[i * FULL_ENCODED..] == block + rest;
      DecodedUnfold(block, rest);
      ok := DecodeBlock(tables, block, res, i * FULL_BLOCK);
      if !ok {
        return;
      }
      assert res[..(i + 1) * FULL_BLOCK] == before + DecodedBlock(block);
      PrependTwice(before, DecodedBlock(block), Decoded(rest));
    }
    ok := true;
  }

  method Decode(tables: Tables, enc: string) returns (data: Option<seq<byte>>)
    requires tables.Valid()
    ensures data == Decoded(enc)
  {
    hide GoodBlock, DecodedBlock, IsReverse;
    if enc == [] {
      return Some([]);
    }
    var blocks, last := |enc| / FULL_ENCODED, |enc| % FULL_ENCODED;
    var lastDecoded := tables.sizes[last];
    if lastDecoded < 0 {
      BadLength(enc);
      return None;
    }
    var res := new byte[blocks * FULL_BLOCK + lastDecoded](_ => 0);
    var ok := DecodeFullBlocks(tables, enc, blocks, res);
    if !ok {
      return None;
    }
    ghost var before := res[..blocks * FULL_BLOCK];
    var rest := enc[blocks * FULL_ENCODED..];
    if 0 < last {
      ok := DecodeBlock(tables, rest, res, blocks * FULL_BLOCK);
      if !ok {
        return None;
      }
      assert res[..] == before + DecodedBlock(rest);
    } else {
      assert rest == [];
      assert res[..] == before + [];
    }
    data := Some(res[..]);
  }

  lemma DecodedUnfold(block: string, rest: string)
    requires |block| == FULL_ENCODED
    ensures Decoded(block + rest) ==
            if GoodBlock(block) then Prepend(DecodedBlock(block), Decoded(rest)) else None
    ensures DecodedSize(FULL_ENCODED) == FULL_BLOCK
  {
    assert (block + rest)[..|block|] == block && (block + rest)[|block|..] == rest;
  }

  lemma PrependNothing(rest: Option<seq<byte>>)
    ensures Prepend([], rest) == rest
  {
    if rest.Some? { assert [] + rest.value == rest.value; }
  }

  lemma PrependTwice(x: seq<byte>, y: seq<byte>, rest: Option<seq<byte>>)
    ensures Prepend(x, Prepend(y, rest)) == Prepend(x + y, rest)
  {
    if rest.Some? { assert x + (y + rest.value) == x + y + rest.value; }
  }

  /** No text whose last block has an impossible length is accepted. */
  lemma {:induction false} BadLength(t: string)
    requires DecodedSize(|t| % FULL_ENCODED) < 0
    ensures Decoded(t) == None
    decreases |t|
  {
    hide GoodBlock, DecodedBlock, DecodedSize;
    NoSizeForNothing();
    if |t| >= FULL_ENCODED {
      SameRemainder(|t|, FULL_ENCODED);
      BadLength(t[FULL_ENCODED..]);
    } else {
      ShortBadLength(t);
    }
  }

  lemma NoSizeForNothing()
    ensures DecodedSize(0) == 0
  {
  }

  lemma ShortBadLength(t: string)
    requires |t| < FULL_ENCODED && DecodedSize(|t| % FULL_ENCODED) < 0
    ensures !GoodBlock(t)
  {
    hide Value, Pow;
    assert |t| % FULL_ENCODED == |t|;
  }

  // ----- addresses -----

  /** A hash whose first four bytes serve as checksum. */
  type Hash = seq<byte> -> seq<byte>

  ghost predicate LongEnough(hash: Hash)
  {
    forall x: seq<byte> :: |hash(x)| >= CHECKSUM
  }

  function Checked(hash: Hash, buf: seq<byte>): seq<byte>
    requires |hash(buf)| >= CHECKSUM
  {
    buf + hash(buf)[..CHECKSUM]
  }

  /** The part of a decoded address in front of a checksum that agrees with it. */
  ghost function Payload(hash: Hash, addr: string): Option<seq<byte>>
    requires LongEnough(hash)
  {
    var d := Decoded(addr);
    if d.None? || |d.value| <= CHECKSUM then None
    else
      var buf := d.value[..|d.value| - CHECKSUM];
      if d.value == Checked(hash, buf) then Some(buf) else None
  }

  datatype Address = Address(tag: nat, data: seq<byte>)

  function EncodedAddr(hash: Hash, a: Address): string
    requires |hash(Varint.Encode(a.tag) + a.data)| >= CHECKSUM
  {
    Encoded(Checked(hash, Varint.Encode(a.tag) + a.data))
  }

  ghost function DecodedAddr(hash: Hash, addr: string): Option<Address>
    requires LongEnough(hash)
  {
    var buf := Payload(hash, addr);
    if buf.None? then None
    else match Varint.Decode(64, buf.value, true)
      case Read(n, v) => if n > 0 then Some(Address(v, buf.value[n..])) else None
      case _ => None
  }

  method EncodeAddr(hash: Hash, a: Address) returns (addr: string)
    requires LongEnough(hash)
    ensures addr == EncodedAddr(hash, a)
  {
    var buf := Varint.WriteVarint(a.tag);
    buf := buf + a.data;
    buf := buf + hash(buf)[..CHECKSUM];
    addr := Encode(buf);
  }

  method DecodeAddr(hash: Hash, tables: Tables, addr: string) returns (r: Option<Address>)
    requires LongEnough(hash) && tables.Valid()
    ensures r == DecodedAddr(hash, addr)
  {
    var decoded := Decode(tables, addr);
    if decoded.None? || |decoded.value| <= CHECKSUM {
      return None;
    }
    var d := decoded.value;
    var checksum := d[|d| - CHECKSUM..];
    var buf := d[..|d| - CHECKSUM];
    assert d == buf + checksum;
    if hash(buf)[..CHECKSUM] != checksum {
      return None;
    }
    var read := Varint.ReadVarint(64, buf);
    match read
    case Read(n, v) => r := if n <= 0 then None else Some(Address(v, buf[n..]));
    case _ => r := None;
  }

  lemma PayloadOfChecked(hash: Hash, buf: seq<byte>)
    requires LongEnough(hash) && buf != []
    ensures Payload(hash, Encoded(Checked(hash, buf))) == Some(buf)
  {
    var d := Checked(hash, buf);
    DecodeEncode(d);
    assert d[..|d| - CHECKSUM] == buf;
  }

  lemma AddrRoundTrip(hash: Hash, a: Address)
    requires LongEnough(hash) && a.tag < TWO64
    ensures DecodedAddr(hash, EncodedAddr(hash, a)) == Some(a)
  {
    var buf := Varint.Encode(a.tag) + a.data;
    PayloadOfChecked(hash, buf);
    SixtyFour();
    Varint.DecodeEncode(64, a.tag, a.data, true);
    assert buf[|Varint.Encode(a.tag)|..] == a.data;
  }

  lemma SixtyFour()
    ensures Shl(1, 64) == TWO64
  {
    Shl16(1);
    ShlShl(1, 16, 16);
    Shl16(0x1_0000);
    ShlShl(1, 32, 16);
    Shl16(0x1_0000_0000);
    ShlShl(1, 48, 16);
    Shl16(0x1_0000_0000_0000);
  }

  lemma Shl16(v: nat)
    ensures Shl(v, 16) == 0x1_0000 * v
  {
    Shl4(v);
    ShlShl(v, 4, 4);
    Shl4(16 * v);
    ShlShl(v, 8, 4);
    Shl4(256 * v);
    ShlShl(v, 12, 4);
    Shl4(4096 * v);
  }

  lemma Shl4(v: nat)
    ensures Shl(v, 4) == 16 * v
  {
    assert Shl(v, 1) == 2 * v;
    assert Shl(v, 2) == 4 * v;
  }

  /** An accepted address is the one encode_addr gives for what was read, exactly if its payload ends the tag. */
  lemma AddrCanonical(hash: Hash, addr: string)
    requires LongEnough(hash) && DecodedAddr(hash, addr).Some?
    ensures
      var buf := Payload(hash, addr).value;
      EncodedAddr(hash, DecodedAddr(hash, addr).value) == addr
      <==> exists k :: 0 <= k < |buf| && buf[k] < 128
  {
    hide Encoded, Decoded, Varint.Encode, Varint.Decode;
    var a, buf := DecodedAddr(hash, addr).value, Payload(hash, addr).value;
    var r := Varint.Decode(64, buf, true);
    EncodeDecode(addr);
    assert Encoded(Checked(hash, buf)) == addr;
    var again := Varint.Encode(a.tag) + a.data;
    if Varint.Terminated(r, buf) {
      Varint.EncodeDecode(64, buf, true, r.count, r.value);
      assert again == buf;
    } else {
      Varint.CutOff(64, buf, true);
      assert again == Varint.Encode(a.tag);
      assert again[|again| - 1] != buf[|buf| - 1];
      if Encoded(Checked(hash, again)) == addr {
        PayloadOfChecked(hash, again);
      }
    }
  }

  lemma LoneByte()
    ensures Varint.Encode(0) == [0] && Varint.Decode(64, [0x80], true) == Varint.Read(1, 0)
  {
    assert [0x80][1..] == [];
    assert Varint.Decode(57, [0x80][1..], false) == Varint.Read(0, 0);
  }

  /** A lone continuation byte under a good checksum is read as tag 0 and empty data. */
  lemma CutOffTagAccepted(hash: Hash)
    requires LongEnough(hash)
    ensures var addr := Encoded(Checked(hash, [0x80]));
      DecodedAddr(hash, addr) == Some(Address(0, [])) && EncodedAddr(hash, Address(0, [])) != addr
  {
    hide Encoded, Checked, Payload, Varint.Decode, Varint.Encode;
    PayloadOfChecked(hash, [0x80]);
    PayloadOfChecked(hash, [0]);
    LoneByte();
    assert Varint.Encode(0) + [] == [0];
    assert [0x80] != [0] && [0x80][1..] == [];
  }

  // ----- the checksum, on the decoded bytes -----

  /** The bytes end in the first four bytes of the hash of those before. */
  ghost predicate Sealed(hash: Hash, d: seq<byte>)
    requires LongEnough(hash)
  {
    |d| > 4 && d[|d| - 4..] == hash(d[..|d| - 4])[..4]
  }

  /** An address is accepted if and only if it decodes, ends in its checksum and starts with a readable tag. */
  lemma AddrAccepted(hash: Hash, addr: string)
    requires LongEnough(hash)
    ensures DecodedAddr(hash, addr) ==
            if Decoded(addr).None? || !Sealed(hash, Decoded(addr).value) then None
            else
              var d := Decoded(addr).value;
              var buf := d[..|d| - 4];
              match Varint.Decode(64, buf, true)
              case Read(n, v) => if n == 0 then None else Some(Address(v, buf[n..]))
              case _ => None
  {
    hide Decoded, Varint.Decode;
    if Decoded(addr).Some? && |Decoded(addr).value| > 4 {
      var d := Decoded(addr).value;
      var buf := d[..|d| - 4];
      assert d == buf + d[|d| - 4..];
      if d == buf + hash(buf)[..4] { assert d[|d| - 4..] == hash(buf)[..4]; }
    }
  }

  /** The address of a tag and data decodes to their bytes and their checksum. */
  lemma AddrSealed(hash: Hash, a: Address)
    requires LongEnough(hash)
    ensures var d := Decoded(EncodedAddr(hash, a));
      d.Some? && Sealed(hash, d.value) && d.value[..|d.value| - 4] == Varint.Encode(a.tag) + a.data
  {
    hide Decoded, Encoded, Varint.Encode;
    var buf := Varint.Encode(a.tag) + a.data;
    var d := Checked(hash, buf);
    DecodeEncode(d);
    assert d[..|d| - 4] == buf && d[|d| - 4..] == hash(buf)[..4];
  }

  /** Any other four bytes in the place of the checksum are refused. */
  lemma WrongChecksumRefused(hash: Hash, buf: seq<byte>, checksum: seq<byte>)
    requires LongEnough(hash) && |checksum| == 4 && checksum != hash(buf)[..4]
    ensures DecodedAddr(hash, Encoded(buf + checksum)) == None
  {
    hide Decoded, Encoded;
    var d := buf + checksum;
    DecodeEncode(d);
    assert d[..|d| - 4] == buf && d[|d| - 4..] == checksum;
    AddrAccepted(hash, Encoded(d));
  }

  // ----- the tables of the encoding -----

  /** The alphabet: seven characters and the one after each of the others. */
  lemma SymbolsAre(i: nat)
    requires i < 58
    ensures Symbol(0) == '1' && Symbol(9) == 'A' && Symbol(17) == 'J' && Symbol(22) == 'P'
    ensures Symbol(33) == 'a' && Symbol(44) == 'm' && Symbol(57) == 'z'
    ensures i !in {8, 16, 21, 32, 43, 57} ==> Symbol(i + 1) as int == Symbol(i) as int + 1
  {
  }

  /** Every block has the fewest symbols that hold all its values. */
  lemma BlockTight(n: nat)
    requires 1 <= n <= FULL_BLOCK
    ensures EncodedSize(n) > 0 && Pow(58, EncodedSize(n) - 1) < Pow(256, n) <= Pow(58, EncodedSize(n))
  {
    PowersOf256();
    PowersOf58();
    assert Pow(58, 1) == 58 && 58 * Pow(58, 3) == Pow(58, 4) && 58 * Pow(58, 7) == Pow(58, 8);
  }
}
