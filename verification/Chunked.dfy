/** The chunked-body reader inside getHTTPResponse of external/miniupnpc/miniwget.c, without a Content-Length. */
module Chunked {
  import opened Words

  const CR: byte := 13
  const LF: byte := 10
  const DIGIT_ROOM: nat := 31  // sizeof(chunksize_buf) - 1

  // ----- chunk sizes -----

  /** isxdigit */
  predicate IsHex(b: byte)
  {
    0x30 <= b <= 0x39 || 0x41 <= b <= 0x46 || 0x61 <= b <= 0x66
  }

  /** Setting bit 32 turns an upper-case letter into a lower-case one. */
  function HexDigit(b: byte): (d: nat)
    requires IsHex(b)
    ensures d < 16
  {
    if b <= 0x39 then b - 0x30 else (if b <= 0x46 then b + 32 else b) - 0x61 + 10
  }

  predicate AllHex(ds: seq<byte>)
  {
    forall k :: 0 <= k < |ds| ==> IsHex(ds[k])
  }

  function HexValue(ds: seq<byte>): nat
    requires AllHex(ds)
  {
    if ds == [] then 0 else 16 * HexValue(ds[..|ds| - 1]) + HexDigit(ds[|ds| - 1])
  }

  // ----- what a whole stream means -----

  /** A line end left over from the chunk before: CR, LF, or both. */
  function Lead(s: seq<byte>): (k: nat)
    ensures k <= |s|
  {
    var k := if |s| > 0 && s[0] == CR then 1 else 0;
    if k < |s| && s[k] == LF then k + 1 else k
  }

  /**
    The content still to come when `size` bytes of the chunk are missing, or `ds` are the digits of its size read
    so far; None for a stream that is not well formed or ends before the zero chunk.  Lines may end in a bare LF.
   */
  function Content(size: nat, ds: seq<byte>, s: seq<byte>): Option<seq<byte>>
    requires AllHex(ds)
    decreases |s|, 0
  {
    if size > 0 then
      if size >= TWO31 || |s| < size then None else Prepend(s[..size], Content(0, [], s[size..]))
    else if ds == [] then
      var k := Lead(s);
      if k == |s| || !IsHex(s[k]) then None else Content(0, [s[k]], s[k + 1..])
    else if s == [] then None
    else if IsHex(s[0]) then
      if |ds| < DIGIT_ROOM then Content(0, ds + [s[0]], s[1..]) else None
    else
      var k := if s[0] == CR then 1 else 0;
      if k == |s| || s[k] != LF then None else AfterSize(HexValue(ds), s[k + 1..])
  }

  function AfterSize(v: nat, s: seq<byte>): Option<seq<byte>>
    decreases |s|, 1
  {
    if v == 0 then Some([]) else Content(v, [], s)
  }

  // ----- well-formed bodies (section 4.1 of RFC 7230, without chunk extensions) -----

  datatype Chunk = Chunk(digits: seq<byte>, data: seq<byte>)

  predicate GoodSize(digits: seq<byte>, v: nat)
  {
    1 <= |digits| <= DIGIT_ROOM && AllHex(digits) && HexValue(digits) == v
  }

  predicate GoodChunk(c: Chunk)
  {
    GoodSize(c.digits, |c.data|) && 0 < |c.data| < TWO31
  }

  function Body(chunks: seq<Chunk>, zeros: seq<byte>, trailer: seq<byte>): seq<byte>
  {
    if chunks == [] then zeros + [CR, LF] + trailer
    else chunks[0].digits + [CR, LF] + chunks[0].data + [CR, LF] + Body(chunks[1..], zeros, trailer)
  }

  function Data(chunks: seq<Chunk>): seq<byte>
  {
    if chunks == [] then [] else chunks[0].data + Data(chunks[1..])
  }

  /** A size line in front of `rest`, with `ds` of its digits already read. */
  lemma {:induction false} SizeLine(ds: seq<byte>, more: seq<byte>, rest: seq<byte>)
    requires AllHex(ds) && AllHex(more) && 1 <= |ds + more| <= DIGIT_ROOM
    ensures Content(0, ds, more + [CR, LF] + rest) == AfterSize(HexValue(ds + more), rest)
    decreases |more|
  {
    var s := more + [CR, LF] + rest;
    if more == [] {
      assert ds + more == ds;
      assert s[2..] == rest;
    } else {
      var b := more[0];
      assert s[1..] == more[1..] + [CR, LF] + rest;
      assert ds + more == ds + [b] + more[1..];
      if ds == [] { assert ds + [b] == [b]; }
      SizeLine(ds + [b], more[1..], rest);
    }
  }

  /** A line end before a size line does not matter. */
  lemma LeadSkipped(s: seq<byte>)
    requires s != [] && IsHex(s[0])
    ensures Content(0, [], [CR, LF] + s) == Content(0, [], s)
  {
    var t := [CR, LF] + s;
    assert t[2] == s[0] && t[3..] == s[1..];
  }

  lemma {:induction false} BodyContent(chunks: seq<Chunk>, zeros: seq<byte>, trailer: seq<byte>)
    requires forall k :: 0 <= k < |chunks| ==> GoodChunk(chunks[k])
    requires GoodSize(zeros, 0)
    ensures Content(0, [], Body(chunks, zeros, trailer)) == Some(Data(chunks))
    decreases |chunks|
  {
    hide Content;
    if chunks == [] {
      SizeLine([], zeros, trailer);
      assert [] + zeros == zeros;
    } else {
      var c, rest := chunks[0], Body(chunks[1..], zeros, trailer);
      var tail := c.data + ([CR, LF] + rest);
      assert Body(chunks, zeros, trailer) == c.digits + [CR, LF] + tail;
      SizeLine([], c.digits, tail);
      assert [] + c.digits == c.digits;
      DataThenRest(c.data, [CR, LF] + rest);
      BodyContent(chunks[1..], zeros, trailer);
      BodyStarts(chunks[1..], zeros, trailer);
      LeadSkipped(rest);
    }
  }

  lemma BodyStarts(chunks: seq<Chunk>, zeros: seq<byte>, trailer: seq<byte>)
    requires forall k :: 0 <= k < |chunks| ==> GoodChunk(chunks[k])
    requires GoodSize(zeros, 0)
    ensures var b := Body(chunks, zeros, trailer); b != [] && IsHex(b[0])
  {
  }

  lemma DataThenRest(data: seq<byte>, rest: seq<byte>)
    requires 0 < |data| < TWO31
    ensures Content(|data|, [], data + rest) == Prepend(data, Content(0, [], rest))
  {
    assert (data + rest)[..|data|] == data && (data + rest)[|data|..] == rest;
  }

  // ----- steps of the reader -----

  lemma DataStep(size: nat, s: seq<byte>, k: nat)
    requires 0 < k <= size && k <= |s| && Content(size, [], s).Some?
    ensures Content(size, [], s) == Prepend(s[..k], Content(size - k, [], s[k..]))
  {
    if k < size {
      assert s[k..][..size - k] == s[k..size];
      assert s[k..][size - k..] == s[size..];
      assert s[..size] == s[..k] + s[k..size];
      var rest := Content(0, [], s[size..]).value;
      assert s[..k] + (s[k..size] + rest) == s[..size] + rest;
    }
  }

  lemma LeadStep(s: seq<byte>, k: nat)
    requires k <= Lead(s) && Content(0, [], s).Some?
    ensures Content(0, [], s[k..]) == Content(0, [], s)
  {
    var l, t := Lead(s), s[k..];
    LeadOfRest(s, k);
    hide Lead;
    ContentOfLine(s);
    ContentOfLine(t);
    assert t[l - k] == s[l] && t[l - k + 1..] == s[l + 1..];
  }

  lemma LeadOfRest(s: seq<byte>, k: nat)
    requires k <= Lead(s) && Content(0, [], s).Some?
    ensures Lead(s) < |s| && IsHex(s[Lead(s)]) && Lead(s[k..]) == Lead(s) - k
  {
    hide Content;
    ContentOfLine(s);
    assert s[0..] == s;
  }

  lemma ContentOfLine(s: seq<byte>)
    ensures var k := Lead(s);
      Content(0, [], s) == if k == |s| || !IsHex(s[k]) then None else Content(0, [s[k]], s[k + 1..])
  {
    hide Lead;
  }

  lemma DigitStep(ds: seq<byte>, s: seq<byte>)
    requires AllHex(ds) && s != [] && IsHex(s[0]) && Content(0, ds, s).Some?
    ensures |ds| < DIGIT_ROOM && Content(0, ds, s) == Content(0, ds + [s[0]], s[1..])
  {
    if ds == [] { assert ds + [s[0]] == [s[0]]; }
  }

  /** Past the digits only a line end can come, and it ends the line whether or not its CR was already read. */
  lemma LineEndStep(ds: seq<byte>, s: seq<byte>)
    requires AllHex(ds) && s != [] && !IsHex(s[0]) && ds != [] && Content(0, ds, s).Some?
    ensures s[0] == CR || s[0] == LF
    ensures s[0] == CR ==> |s| > 1 && s[1] == LF && Content(0, ds, s) == Content(0, ds, s[1..])
    ensures s[0] == LF ==> Content(0, ds, s) == AfterSize(HexValue(ds), s[1..])
  {
    if s[0] == CR {
      assert s[1..][1..] == s[2..];
    }
  }

  // ----- the reader -----

  /** memcpy */
  method CopyInto(target: array<byte>, at: nat, piece: seq<byte>)
    requires at + |piece| <= target.Length
    modifies target
    ensures target[..at + |piece|] == old(target[..at]) + piece
  {
    ghost var before := target[..at];
    for k := 0 to |piece|
      invariant target[..at + k] == before + piece[..k]
    {
      target[at + k] := piece[k];
      assert target[..at + k + 1] == target[..at + k] + [piece[k]];
      assert piece[..k + 1] == piece[..k] + [piece[k]];
    }
    assert piece[..|piece|] == piece;
  }

  /** content_buf, content_buf_len and content_buf_used */
  class ContentBuffer {
    var data: array<byte>
    var used: nat

    ghost predicate Valid()
      reads this
    {
      used <= data.Length < TWO32
    }

    ghost function Bytes(): seq<byte>
      requires Valid()
      reads this, data
    {
      data[..used]
    }

    constructor ()
      ensures Valid() && Bytes() == [] && fresh(data)
    {
      data := new byte[2048](_ => 0);
      used := 0;
    }

    /**
      Growing compares the needed length, as a signed number, with the absent Content-Length of -1.  A length that
      does not fit its word would wrap, and the copy would leave the buffer.
     */
    method Append(piece: seq<byte>) returns (fits: bool)
      requires Valid()
      modifies this, data
      ensures fits <==> old(used) + |piece| < TWO32
      ensures Valid() && Bytes() == old(Bytes()) + if fits then piece else []
      ensures data == old(data) || fresh(data)
    {
      var need := used + |piece|;
      fits := need < TWO32;
      if !fits {
        return;
      }
      if need > data.Length {
        var length := if need >= TWO31 then TWO32 - 1 else need;
        var bigger := new byte[length](_ => 0);
        CopyInto(bigger, 0, data[..used]);
        data := bigger;
      }
      CopyInto(data, used, piece);
      used := need;
    }
  }

  /** A read leaves the reader waiting for more, at the zero chunk, or outside what the source defines. */
  datatype Outcome = More | Finished | Undefined

  class Reader {
    const content: ContentBuffer
    var chunksize: u32
    var digits: seq<byte>

    ghost predicate Valid()
      reads this, content
    {
      content.Valid() && AllHex(digits) && |digits| <= DIGIT_ROOM && (chunksize > 0 ==> digits == [])
    }

    constructor ()
      ensures Valid() && content.Bytes() == [] && chunksize == 0 && digits == []
      ensures fresh(content) && fresh(content.data)
    {
      content := new ContentBuffer();
      chunksize, digits := 0, [];
    }

    /** Reading a chunk size; complete when its line end was seen, and then chunksize holds it. */
    method ReadSize(buf: seq<byte>, i: nat, ghost later: seq<byte>) returns (j: nat, complete: bool)
      requires Valid() && chunksize == 0 && i < |buf|
      modifies this
      ensures Valid() && i < j <= |buf| && (!complete ==> chunksize == 0) && (complete ==> digits == [])
      ensures Content(0, old(digits), buf[i..] + later).Some? ==>
                (if complete then AfterSize(chunksize, buf[j..] + later) else Content(0, digits, buf[j..] + later))
                == Content(0, old(digits), buf[i..] + later) &&
                (!complete ==> j == |buf|)
    {
      hide Content, HexValue, AfterSize;
      ghost var whole := Content(0, digits, buf[i..] + later);
      var ds, k := CollectDigits(digits, buf, i, later);
      j, complete := FinishLine(ds, buf, k, later);
      digits := ds;
      if complete {
        var size := SizeOf(digits);
        if whole.Some? { SizeExact(HexValue(digits), buf[j..] + later); }
        chunksize, digits := size, [];
      }
    }

    /** The loop over one received buffer; `later` is what the peer has yet to send. */
    method Receive(buf: seq<byte>, ghost later: seq<byte>) returns (o: Outcome)
      requires Valid() && |buf| < TWO31
      modifies this, content, content.data
      ensures Valid() && (content.data == old(content.data) || fresh(content.data))
      ensures
        var whole := Content(old(chunksize), old(digits), buf + later);
        whole.Some? ==>
          (o == Undefined ==> |old(content.Bytes())| + |whole.value| >= TWO32) &&
          (o == Finished ==> content.Bytes() == old(content.Bytes()) + whole.value) &&
          (o == More ==>
             Content(chunksize, digits, later).Some? &&
             content.Bytes() + Content(chunksize, digits, later).value == old(content.Bytes()) + whole.value)
    {
      hide Content, AfterSize, HexValue;
      ghost var whole := Content(chunksize, digits, buf + later);
      ghost var before := content.Bytes();
      ghost var good := whole.Some?;
      var i := 0;
      assert buf[0..] == buf;
      while i < |buf|
        invariant 0 <= i <= |buf| && Valid()
        invariant content.data == old(content.data) || fresh(content.data)
        invariant good ==> Content(chunksize, digits, buf[i..] + later).Some? &&
                           content.Bytes() + Content(chunksize, digits, buf[i..] + later).value == before + whole.value
        decreases |buf| - i
      {
        if chunksize == 0 {
          var complete;
          i, complete := ReadSize(buf, i, later);
          if !complete {
            continue;
          }
          if chunksize == 0 {
            ZeroChunk(buf[i..] + later);
            return Finished;
          }
          AfterNonZero(chunksize, buf[i..] + later);
        }
        var signed := if chunksize >= TWO31 then chunksize - TWO32 else chunksize;
        var count := if signed < |buf| - i then chunksize else |buf| - i;
        if good { SizeBound(chunksize, buf[i..] + later); }
        if count > |buf| - i {
          return Undefined;  // the copy would run past the received bytes
        }
        if good && count > 0 { CopyStep(chunksize, content.Bytes(), buf, i, count, later); }
        var fits := content.Append(buf[i..i + count]);
        if !fits {
          return Undefined;
        }
        i := i + count;
        chunksize := chunksize - count;
      }
      assert buf[i..] + later == later;
      o := More;
    }

  }

  /** Skipping a left-over line end and collecting the digits that have arrived. */
  method CollectDigits(start: seq<byte>, buf: seq<byte>, i: nat, ghost later: seq<byte>)
    returns (digits: seq<byte>, j: nat)
    requires AllHex(start) && |start| <= DIGIT_ROOM && i < |buf|
    ensures AllHex(digits) && |digits| <= DIGIT_ROOM && i <= j <= |buf|
    ensures j < |buf| ==> !IsHex(buf[j]) || |digits| == DIGIT_ROOM
    ensures Content(0, start, buf[i..] + later).Some? ==>
              Content(0, digits, buf[j..] + later) == Content(0, start, buf[i..] + later) &&
              (j < |buf| ==> digits != [])
  {
    hide Content;
    ghost var whole := Content(0, start, buf[i..] + later);
    digits, j := start, i;
    if digits == [] {
      if j < |buf| && buf[j] == CR { j := j + 1; }
      if j < |buf| && buf[j] == LF { j := j + 1; }
      if whole.Some? { SkipLead(buf, i, j, later); }
    }
    while j < |buf| && IsHex(buf[j]) && |digits| < DIGIT_ROOM
      invariant AllHex(digits) && |digits| <= DIGIT_ROOM && i <= j <= |buf|
      invariant whole.Some? ==> Content(0, digits, buf[j..] + later) == whole
      invariant whole.Some? && digits == [] && j < |buf| ==> IsHex(buf[j])
    {
      if whole.Some? { ReadDigit(digits, buf, j, later); }
      digits := digits + [buf[j]];
      j := j + 1;
    }
  }

  /** Discarding an extension and looking for the line end; complete when its LF has arrived. */
  method FinishLine(digits: seq<byte>, buf: seq<byte>, i: nat, ghost later: seq<byte>)
    returns (j: nat, complete: bool)
    requires AllHex(digits) && i <= |buf| && (i < |buf| ==> !IsHex(buf[i]) || |digits| == DIGIT_ROOM)
    ensures i <= j <= |buf| && (i < |buf| ==> i < j) && (complete ==> i < j)
    ensures Content(0, digits, buf[i..] + later).Some? && (i < |buf| ==> digits != []) ==>
              (if complete then AfterSize(HexValue(digits), buf[j..] + later) else Content(0, digits, buf[j..] + later))
              == Content(0, digits, buf[i..] + later) &&
              (!complete ==> j == |buf|)
  {
    hide Content, HexValue, AfterSize;
    ghost var good := Content(0, digits, buf[i..] + later).Some? && (i < |buf| ==> digits != []);
    j := i;
    if good && j < |buf| { LineEnds(digits, buf, j, later); }
    while j < |buf| && buf[j] != CR && buf[j] != LF
      invariant i <= j <= |buf|
      invariant good ==> j == i
    {
      j := j + 1;
    }
    if j < |buf| && buf[j] == CR {
      j := j + 1;
      if good && j < |buf| { LineEnds(digits, buf, j, later); }
    }
    complete := j < |buf| && buf[j] == LF;
    if complete { j := j + 1; }
  }

  /** The loop over chunksize_buf: four bits a digit in a 32-bit word. */
  method SizeOf(digits: seq<byte>) returns (size: u32)
    requires AllHex(digits)
    ensures size == HexValue(digits) % TWO32
  {
    size := 0;
    for j := 0 to |digits|
      invariant size == HexValue(digits[..j]) % TWO32
    {
      assert digits[..j + 1][..j] == digits[..j];
      ShiftIn(HexValue(digits[..j]), HexDigit(digits[j]));
      size := ((size * 16) % TWO32 + HexDigit(digits[j])) % TWO32;
    }
    assert digits[..|digits|] == digits;
  }

  lemma ShiftIn(v: nat, d: nat)
    requires d < 16
    ensures (((v % TWO32) * 16) % TWO32 + d) % TWO32 == (16 * v + d) % TWO32
  {
    var t := (v % TWO32) * 16;
    assert 16 * v + d == TWO32 * (16 * (v / TWO32) + t / TWO32) + (t % TWO32 + d);
    ModShift(16 * (v / TWO32) + t / TWO32, TWO32, t % TWO32 + d);
  }

  lemma LeadOfPrefix(x: seq<byte>, y: seq<byte>)
    ensures Lead(x) <= Lead(x + y) && (Lead(x) < |x| ==> Lead(x + y) == Lead(x))
  {
  }

  lemma SkipLead(buf: seq<byte>, i: nat, j: nat, later: seq<byte>)
    requires i < |buf| && i <= j <= |buf| && Content(0, [], buf[i..] + later).Some?
    requires j == i + Lead(buf[i..])
    ensures Content(0, [], buf[j..] + later) == Content(0, [], buf[i..] + later)
    ensures j < |buf| ==> IsHex(buf[j])
  {
    hide Content, Lead;
    var s := buf[i..] + later;
    LeadOfPrefix(buf[i..], later);
    LeadStep(s, j - i);
    LeadOfRest(s, 0);
    assert s[j - i..] == buf[j..] + later;
  }

  lemma ReadDigit(ds: seq<byte>, buf: seq<byte>, j: nat, later: seq<byte>)
    requires AllHex(ds) && j < |buf| && IsHex(buf[j]) && Content(0, ds, buf[j..] + later).Some?
    ensures Content(0, ds + [buf[j]], buf[j + 1..] + later) == Content(0, ds, buf[j..] + later)
  {
    hide Content;
    var s := buf[j..] + later;
    DigitStep(ds, s);
    assert s[1..] == buf[j + 1..] + later;
  }

  /** In a well-formed stream the digits are followed by a line end, of which CR may come first. */
  lemma LineEnds(ds: seq<byte>, buf: seq<byte>, j: nat, later: seq<byte>)
    requires AllHex(ds) && ds != [] && j < |buf| && Content(0, ds, buf[j..] + later).Some?
    requires !IsHex(buf[j]) || |ds| >= DIGIT_ROOM
    ensures buf[j] == CR || buf[j] == LF
    ensures buf[j] == CR ==>
              Content(0, ds, buf[j + 1..] + later) == Content(0, ds, buf[j..] + later) &&
              (j + 1 < |buf| ==> buf[j + 1] == LF)
    ensures buf[j] == LF ==> AfterSize(HexValue(ds), buf[j + 1..] + later) == Content(0, ds, buf[j..] + later)
  {
    hide Content;
    var s := buf[j..] + later;
    if IsHex(s[0]) { DigitStep(ds, s); }
    LineEndStep(ds, s);
    assert s[1..] == buf[j + 1..] + later;
  }

  /** A size that the grammar allows is not changed by the 32-bit word. */
  lemma SizeExact(v: nat, s: seq<byte>)
    requires AfterSize(v, s).Some?
    ensures v < TWO31 && v % TWO32 == v && AfterSize(v % TWO32, s) == AfterSize(v, s)
  {
  }

  lemma SizeBound(v: nat, s: seq<byte>)
    requires v > 0 && Content(v, [], s).Some?
    ensures v < TWO31
  {
  }

  lemma ZeroChunk(s: seq<byte>)
    ensures AfterSize(0, s) == Some([])
  {
  }

  lemma AfterNonZero(v: nat, s: seq<byte>)
    requires v > 0
    ensures AfterSize(v, s) == Content(v, [], s)
  {
  }

  lemma CopyStep(size: nat, done: seq<byte>, buf: seq<byte>, i: nat, k: nat, later: seq<byte>)
    requires 0 < k <= size && i + k <= |buf| && Content(size, [], buf[i..] + later).Some?
    ensures Content(size - k, [], buf[i + k..] + later).Some?
    ensures done + buf[i..i + k] + Content(size - k, [], buf[i + k..] + later).value
            == done + Content(size, [], buf[i..] + later).value
  {
    hide Content;
    var s := buf[i..] + later;
    DataStep(size, s, k);
    assert s[..k] == buf[i..i + k] && s[k..] == buf[i + k..] + later;
    var rest := Content(size - k, [], s[k..]).value;
    assert done + s[..k] + rest == done + (s[..k] + rest);
  }

  // ----- the whole body, however it was cut -----

  /** The receive loop over the reads; None where a read leaves what the source defines, as beyond 2^32 bytes. */
  method ReadBody(pieces: seq<seq<byte>>) returns (r: Option<seq<byte>>)
    requires forall k :: 0 <= k < |pieces| ==> 0 < |pieces[k]| < TWO31
    ensures var whole := Content(0, [], Concat(pieces));
      whole.Some? ==> r == if |whole.value| < TWO32 then whole else None
  {
    hide Content;
    var reader := new Reader();
    ghost var whole := Content(0, [], Concat(pieces));
    ghost var good := whole.Some?;
    assert pieces[0..] == pieces;
    for k := 0 to |pieces|
      invariant reader.Valid() && fresh(reader) && fresh(reader.content) && fresh(reader.content.data)
      invariant good ==>
                  var rest := Content(reader.chunksize, reader.digits, Concat(pieces[k..]));
                  rest.Some? && reader.content.Bytes() + rest.value == whole.value
    {
      assert pieces[k..][0] == pieces[k] && pieces[k..][1..] == pieces[k + 1..];
      ConcatFirst(pieces[k..]);
      var o := reader.Receive(pieces[k], Concat(pieces[k + 1..]));
      if o == Finished {
        return Some(reader.content.data[..reader.content.used]);
      }
      if o == Undefined {
        return None;
      }
    }
    NothingLeft(reader.chunksize, reader.digits);
    r := Some(reader.content.data[..reader.content.used]);
  }

  lemma NothingLeft(size: nat, ds: seq<byte>)
    requires AllHex(ds)
    ensures Content(size, ds, []) == None
  {
  }

  /** Every way of cutting a well-formed body into reads decodes to the data of its chunks, if and only if they fit. */
  method ReadWellFormed(pieces: seq<seq<byte>>, ghost chunks: seq<Chunk>, ghost zeros: seq<byte>,
                        ghost trailer: seq<byte>)
    returns (r: Option<seq<byte>>)
    requires forall k :: 0 <= k < |pieces| ==> 0 < |pieces[k]| < TWO31
    requires forall k :: 0 <= k < |chunks| ==> GoodChunk(chunks[k])
    requires GoodSize(zeros, 0)
    requires Concat(pieces) == Body(chunks, zeros, trailer)
    ensures r == if |Data(chunks)| < TWO32 then Some(Data(chunks)) else None
  {
    BodyContent(chunks, zeros, trailer);
    r := ReadBody(pieces);
  }
}
