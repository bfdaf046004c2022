/** Exactly which streams the chunk reader of external/miniupnpc/miniwget.c takes, and what its size lines mean. */
module ChunkedGrammar {
  import opened Words
  import opened Chunked

  // ----- hexadecimal numbers -----

  const LOWER: string := "0123456789abcdef"
  const UPPER: string := "0123456789ABCDEF"

  function Code(c: char): byte
    requires c as int < 128
  {
    c as int
  }

  /** Every character of the two rows counts as its place. */
  lemma HexDigitIs(i: nat)
    requires i < 16
    ensures LOWER[i] as int < 128 && IsHex(Code(LOWER[i])) && HexDigit(Code(LOWER[i])) == i
    ensures UPPER[i] as int < 128 && IsHex(Code(UPPER[i])) && HexDigit(Code(UPPER[i])) == i
  {
  }

  /** No other byte is a digit. */
  lemma HexIs(b: byte)
    ensures IsHex(b) <==> exists i :: 0 <= i < 16 && (LOWER[i] as int == b || UPPER[i] as int == b)
  {
    if IsHex(b) {
      var i := HexDigit(b);
      assert LOWER[i] as int == b || UPPER[i] as int == b;
    }
  }

  /** The usual text of a number, in either row of characters. */
  function HexText(n: nat, row: string): (t: seq<byte>)
    requires row == LOWER || row == UPPER
    ensures |t| > 0 && AllHex(t)
  {
    HexDigitIs(n % 16);
    if n < 16 then [Code(row[n])] else HexText(n / 16, row) + [Code(row[n % 16])]
  }

  lemma {:induction false} HexTextValue(n: nat, row: string)
    requires row == LOWER || row == UPPER
    ensures HexValue(HexText(n, row)) == n
    decreases n
  {
    hide HexDigit, IsHex;
    HexDigitIs(n % 16);
    var t := HexText(n, row);
    if n < 16 {
      assert t[..0] == [];
    } else {
      HexTextValue(n / 16, row);
      assert t[..|t| - 1] == HexText(n / 16, row);
    }
  }

  lemma {:induction false} HexTextLength(n: nat, row: string, k: nat)
    requires (row == LOWER || row == UPPER) && n < Pow(16, k) && k > 0
    ensures |HexText(n, row)| <= k
    decreases k
  {
    if n < 16 {
    } else {
      assert Pow(16, 1) == 16 * Pow(16, 0);
      assert Pow(16, k) == 16 * Pow(16, k - 1);
      HexTextLength(n / 16, row, k - 1);
    }
  }

  // ----- the grammar -----

  /** What may stand before the digits of a size: what the line end after a chunk leaves. */
  predicate IsLead(s: seq<byte>)
  {
    s == [] || s == [CR] || s == [LF] || s == [CR, LF]
  }

  predicate IsLineEnd(s: seq<byte>)
  {
    s == [LF] || s == [CR, LF]
  }

  /** A size line and what follows it. */
  datatype Piece = Piece(lead: seq<byte>, digits: seq<byte>, end: seq<byte>, data: seq<byte>)

  predicate SizeLineOf(p: Piece, v: nat)
  {
    IsLead(p.lead) && IsLineEnd(p.end) && GoodSize(p.digits, v)
  }

  predicate GoodPieces(ps: seq<Piece>)
  {
    forall k :: 0 <= k < |ps| ==> SizeLineOf(ps[k], |ps[k].data|) && 0 < |ps[k].data| < TWO31
  }

  function Spelled(p: Piece): seq<byte>
  {
    p.lead + (p.digits + p.end + p.data)
  }

  /** Chunks, and the zero chunk with whatever comes after its line. */
  function Spell(ps: seq<Piece>, last: Piece): seq<byte>
  {
    if ps == [] then Spelled(last) else Spelled(ps[0]) + Spell(ps[1..], last)
  }

  function Datas(ps: seq<Piece>): seq<byte>
  {
    if ps == [] then [] else ps[0].data + Datas(ps[1..])
  }

  // ----- every sentence is taken -----

  lemma {:induction false} LineRead(ds: seq<byte>, more: seq<byte>, end: seq<byte>, rest: seq<byte>)
    requires AllHex(ds) && AllHex(more) && IsLineEnd(end) && ds != [] && |ds + more| <= DIGIT_ROOM
    ensures Content(0, ds, more + end + rest) == AfterSize(HexValue(ds + more), rest)
    decreases |more|
  {
    hide HexValue;
    var s := more + end + rest;
    if more == [] {
      assert ds + more == ds && s == end + rest;
      assert s[|end|..] == rest;
    } else {
      assert s[1..] == more[1..] + end + rest;
      assert ds + more == ds + [more[0]] + more[1..];
      LineRead(ds + [more[0]], more[1..], end, rest);
    }
  }

  lemma LeadRead(lead: seq<byte>, s: seq<byte>)
    requires IsLead(lead) && s != [] && IsHex(s[0])
    ensures Content(0, [], lead + s) == Content(0, [s[0]], s[1..])
  {
    var t := lead + s;
    LeadIs(lead, s);
    hide Lead;
    assert t[|lead|] == s[0] && t[|lead| + 1..] == s[1..];
  }

  lemma LeadIs(lead: seq<byte>, s: seq<byte>)
    requires IsLead(lead) && s != [] && IsHex(s[0])
    ensures Lead(lead + s) == |lead|
  {
  }

  lemma SizeRead(p: Piece, v: nat, rest: seq<byte>)
    requires SizeLineOf(p, v)
    ensures Content(0, [], p.lead + (p.digits + p.end + rest)) == AfterSize(v, rest)
  {
    hide Content, HexValue;
    var s := p.digits + p.end + rest;
    LeadRead(p.lead, s);
    assert s[1..] == p.digits[1..] + p.end + rest && [p.digits[0]] + p.digits[1..] == p.digits;
    LineRead([p.digits[0]], p.digits[1..], p.end, rest);
  }

  /** A sentence means the data of its chunks. */
  lemma {:induction false} SpellContent(ps: seq<Piece>, last: Piece)
    requires GoodPieces(ps) && SizeLineOf(last, 0)
    ensures Content(0, [], Spell(ps, last)) == Some(Datas(ps))
    decreases |ps|
  {
    hide Content, SizeLineOf;
    if ps == [] {
      SizeRead(last, 0, last.data);
    } else {
      var p, rest := ps[0], Spell(ps[1..], last);
      assert Spell(ps, last) == p.lead + (p.digits + p.end + (p.data + rest));
      SizeRead(p, |p.data|, p.data + rest);
      DataThenRest(p.data, rest);
      SpellContent(ps[1..], last);
    }
  }

  // ----- nothing else is -----

  lemma {:induction false} LineParsed(ds: seq<byte>, s: seq<byte>)
    returns (more: seq<byte>, end: seq<byte>, rest: seq<byte>)
    requires AllHex(ds) && 1 <= |ds| <= DIGIT_ROOM && Content(0, ds, s).Some?
    ensures s == more + end + rest && IsLineEnd(end) && AllHex(more) && |ds + more| <= DIGIT_ROOM
    ensures Content(0, ds, s) == AfterSize(HexValue(ds + more), rest)
    decreases |s|
  {
    hide HexValue;
    if IsHex(s[0]) {
      more, end, rest := LineParsed(ds + [s[0]], s[1..]);
      assert ds + [s[0]] + more == ds + ([s[0]] + more);
      more := [s[0]] + more;
    } else {
      more, end := [], if s[0] == CR then [CR, LF] else [LF];
      rest := s[|end|..];
      assert ds + more == ds && s == more + end + rest;
    }
  }

  lemma SizeParsed(s: seq<byte>) returns (p: Piece, rest: seq<byte>)
    requires Content(0, [], s).Some?
    ensures s == p.lead + (p.digits + p.end + rest) && AllHex(p.digits) && SizeLineOf(p, HexValue(p.digits))
    ensures Content(0, [], s) == AfterSize(HexValue(p.digits), rest)
  {
    hide HexValue, Content, Lead;
    ContentOfLine(s);
    LeadParsed(s);
    var k := Lead(s);
    var b, tail := s[k], s[k + 1..];
    var more, end;
    more, end, rest := LineParsed([b], tail);
    p := Piece(s[..k], [b] + more, end, []);
    Split(s, k, more, end, rest);
  }

  lemma Split(s: seq<byte>, k: nat, more: seq<byte>, end: seq<byte>, rest: seq<byte>)
    requires k < |s| && s[k + 1..] == more + end + rest
    ensures s == s[..k] + ([s[k]] + more + end + rest)
  {
    assert s == s[..k] + ([s[k]] + s[k + 1..]);
    assert [s[k]] + (more + end + rest) == [s[k]] + more + end + rest;
  }

  lemma LeadParsed(s: seq<byte>)
    ensures IsLead(s[..Lead(s)])
  {
  }

  /** Whatever has a content is a sentence. */
  lemma {:induction false} ContentSpelled(s: seq<byte>) returns (ps: seq<Piece>, last: Piece)
    requires Content(0, [], s).Some?
    ensures GoodPieces(ps) && SizeLineOf(last, 0) && s == Spell(ps, last)
    decreases |s|
  {
    hide HexValue, Content, SizeLineOf;
    var p, rest := SizeParsed(s);
    var v := HexValue(p.digits);
    if v == 0 {
      ps, last := [], p.(data := rest);
      SizeLineData(p, 0, rest);
    } else {
      DataParsed(v, rest);
      SizeLineShorter(p);
      var data := rest[..v];
      var more;
      more, last := ContentSpelled(rest[v..]);
      SizeLineData(p, v, data);
      p := p.(data := data);
      assert SizeLineOf(p, |p.data|);
      ps := [p] + more;
      assert ps[1..] == more && rest == data + rest[v..];
      assert p.lead + (p.digits + p.end + (data + rest[v..])) == Spelled(p) + rest[v..];
    }
  }

  lemma SizeLineData(p: Piece, v: nat, data: seq<byte>)
    ensures SizeLineOf(p, v) ==> SizeLineOf(p.(data := data), v)
  {
  }

  lemma SizeLineShorter(p: Piece)
    requires AllHex(p.digits) && SizeLineOf(p, HexValue(p.digits))
    ensures |p.digits| > 0
  {
  }

  lemma DataParsed(v: nat, s: seq<byte>)
    requires v > 0 && AfterSize(v, s).Some?
    ensures v < TWO31 && v <= |s| && Content(0, [], s[v..]).Some?
  {
  }

  ghost predicate Means(s: seq<byte>, ps: seq<Piece>, last: Piece, content: seq<byte>)
  {
    GoodPieces(ps) && SizeLineOf(last, 0) && s == Spell(ps, last) && content == Datas(ps)
  }

  /** A stream has a content if and only if it is a sentence with that data. */
  lemma ContentExact(s: seq<byte>, content: seq<byte>)
    ensures Content(0, [], s) == Some(content) <==> exists ps, last :: Means(s, ps, last, content)
  {
    hide Content, Spell, Datas, GoodPieces, SizeLineOf;
    if Content(0, [], s) == Some(content) {
      var ps, last := ContentSpelled(s);
      SpellContent(ps, last);
      assert Means(s, ps, last, content);
    }
    forall ps, last | Means(s, ps, last, content) ensures Content(0, [], s) == Some(content) {
      SpellContent(ps, last);
    }
  }

  // ----- bodies as they are usually written -----

  /** A chunk whose size is the usual text of its length. */
  function ChunkOf(data: seq<byte>, row: string): Chunk
    requires row == LOWER || row == UPPER
  {
    Chunk(HexText(|data|, row), data)
  }

  lemma UsualChunk(data: seq<byte>, row: string)
    requires (row == LOWER || row == UPPER) && 0 < |data| < TWO31
    ensures GoodChunk(ChunkOf(data, row))
  {
    hide HexText, HexValue;
    HexTextValue(|data|, row);
    assert Pow(16, 4) == 0x1_0000;
    PowAdd(16, 4, 4);
    HexTextLength(|data|, row, 8);
  }

  function ChunksOf(datas: seq<seq<byte>>, row: string): (cs: seq<Chunk>)
    requires row == LOWER || row == UPPER
    ensures |cs| == |datas| && forall k :: 0 <= k < |cs| ==> cs[k] == ChunkOf(datas[k], row)
  {
    seq(|datas|, k requires 0 <= k < |datas| => ChunkOf(datas[k], row))
  }

  lemma {:induction false} DataOfChunks(datas: seq<seq<byte>>, row: string)
    requires row == LOWER || row == UPPER
    ensures Data(ChunksOf(datas, row)) == Concat(datas)
    decreases |datas|
  {
    if datas == [] {
    } else {
      assert ChunksOf(datas, row)[1..] == ChunksOf(datas[1..], row);
      DataOfChunks(datas[1..], row);
      ConcatFirst(datas);
    }
  }

  /** Pieces of data, each behind its length in hexadecimal, mean their concatenation (section 4.1 of RFC 7230). */
  lemma UsualBody(datas: seq<seq<byte>>, row: string, trailer: seq<byte>)
    requires row == LOWER || row == UPPER
    requires forall k :: 0 <= k < |datas| ==> 0 < |datas[k]| < TWO31
    ensures Content(0, [], Body(ChunksOf(datas, row), HexText(0, row), trailer)) == Some(Concat(datas))
  {
    hide Content, HexText, HexValue, GoodChunk;
    forall k | 0 <= k < |datas| ensures GoodChunk(ChunkOf(datas[k], row)) { UsualChunk(datas[k], row); }
    HexTextValue(0, row);
    assert Pow(16, 1) == 16 * Pow(16, 0);
    HexTextLength(0, row, 1);
    BodyContent(ChunksOf(datas, row), HexText(0, row), trailer);
    DataOfChunks(datas, row);
  }
}
