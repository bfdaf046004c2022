/** HTTP messages: the printers and the parser of src/HTTP, with round trips stated as exact conditions. */
module Http {
  import opened Text
  import opened Words

  type Headers = map<string, string>

  datatype Status = Status200 | Status404 | Status500

  /** HttpResponse and HttpRequest as values. */
  datatype Reply = Reply(status: Status, headers: Headers, body: string)
  datatype Message = Message(verb: string, url: string, headers: Headers, body: string)

  /** What the parser throws; BadLength is what the library's number reader throws. */
  datatype Error = EndOfStream | UnexpectedSymbol | EmptyHeader | NewlineExpected | BadLength

  type Read<+T> = Outcome<T, Error>

  const LENGTH: string := "Content-Length"

  // ----- messages and their setters -----

  function StatusText(s: Status): string
  {
    match s
    case Status200 => "200 OK"
    case Status404 => "404 Not Found"
    case Status500 => "500 Internal Server Error"
  }

  function ParseStatus(t: string): Option<Status>
  {
    if t == "200 OK" || t == "200 Ok" then Some(Status200)
    else if t == "404 Not Found" then Some(Status404)
    else if t == "500 Internal Server Error" then Some(Status500)
    else None
  }

  function ErrorBody(s: Status): string
    requires s != Status200
  {
    if s == Status404 then "Requested url is not found\n" else "Internal server error is occured\n"
  }

  function FreshReply(): Reply
  {
    Reply(Status200, map["Server" := "Cryptonote-based HTTP server"], "")
  }

  function WithLength(h: Headers, body: string): Headers
  {
    if body != "" then h[LENGTH := NatText(|body|)] else h - {LENGTH}
  }

  function SetBody(r: Reply, body: string): Reply
  {
    r.(headers := WithLength(r.headers, body), body := body)
  }

  function SetStatus(r: Reply, s: Status): Reply
  {
    if s == Status200 then r.(status := s) else SetBody(r.(status := s), ErrorBody(s))
  }

  datatype Setter = DoStatus(status: Status) | DoHeader(name: string, value: string) | DoBody(body: string)

  function Set(r: Reply, a: Setter): Reply
  {
    match a
    case DoStatus(s) => SetStatus(r, s)
    case DoHeader(name, value) => r.(headers := r.headers[name := value])
    case DoBody(body) => SetBody(r, body)
  }

  /** The response that the calls build. */
  function Built(calls: seq<Setter>): Reply
  {
    if calls == [] then FreshReply() else Set(Built(calls[..|calls| - 1]), calls[|calls| - 1])
  }

  /** No call sets the length by hand, and bodies fit a size_t. */
  predicate Ordinary(calls: seq<Setter>)
  {
    forall k :: 0 <= k < |calls| ==>
      (calls[k].DoHeader? ==> calls[k].name != LENGTH) && (calls[k].DoBody? ==> |calls[k].body| < TWO64)
  }

  /** The length is there exactly when there is a body, and is its length. */
  predicate LengthAgrees(h: Headers, body: string)
  {
    |body| < TWO64 && if body == "" then LENGTH !in h else LENGTH in h && h[LENGTH] == NatText(|body|)
  }

  predicate Consistent(r: Reply)
  {
    "Server" in r.headers && LengthAgrees(r.headers, r.body)
  }

  /** Every response that the setters build keeps its length header in step with its body. */
  lemma {:induction false} BuiltConsistent(calls: seq<Setter>)
    requires Ordinary(calls)
    ensures Consistent(Built(calls))
  {
    hide NatText;
    if calls == [] {
    } else {
      BuiltConsistent(calls[..|calls| - 1]);
    }
  }

  // ----- printing -----

  predicate First(k: string, names: set<string>)
  {
    k in names && forall j :: j in names ==> j == k || Less(k, j)
  }

  lemma {:induction false} FirstExists(names: set<string>)
    requires names != {}
    ensures exists k :: First(k, names)
    decreases |names|
  {
    var x :| x in names;
    var others := names - {x};
    assert forall j :: j in names ==> j == x || j in others;
    if others == {} {
      assert First(x, names);
    } else {
      FirstExists(others);
      var k :| First(k, others);
      LessTotal(x, k);
      if Less(x, k) {
        forall j | j in names ensures j == x || Less(x, j) { if j != x && j != k { LessTransitive(x, k, j); } }
        assert First(x, names);
      } else {
        assert First(k, names);
      }
    }
  }

  lemma FirstUnique(names: set<string>)
    ensures forall j, k :: First(j, names) && First(k, names) ==> j == k
  {
    forall j, k | First(j, names) && First(k, names) ensures j == k {
      if j != k {
        LessTransitive(j, k, j);
        LessIrreflexive(j);
      }
    }
  }

  /** The names in the order in which the map is walked. */
  function Walk(names: set<string>): (r: seq<string>)
    ensures |r| == |names| && forall k :: k in r <==> k in names
    ensures forall i, j :: 0 <= i < j < |r| ==> Less(r[i], r[j])
  {
    if names == {} then []
    else
      FirstExists(names);
      FirstUnique(names);
      var k :| First(k, names);
      [k] + Walk(names - {k})
  }

  function Line(name: string, value: string): string
  {
    name + ": " + value + "\r\n"
  }

  /** Every name listed has a value. */
  predicate Covers(h: Headers, names: seq<string>)
  {
    forall n :: n in names ==> n in h
  }

  function Lines(h: Headers, names: seq<string>): string
    requires Covers(h, names)
  {
    if names == [] then "" else Line(names[0], h[names[0]]) + Lines(h, names[1..])
  }

  function PrintReply(r: Reply): string
  {
    "HTTP/1.1 " + StatusText(r.status) + "\r\n" + Lines(r.headers, Walk(r.headers.Keys)) + "\r\n" + r.body
  }

  /** What a request is sent with: its own headers, and a host if it names none. */
  function WithHost(h: Headers): Headers
  {
    if "Host" in h then h else h["Host" := "127.0.0.1"]
  }

  function PrintMessage(q: Message): string
  {
    "POST " + q.url + " HTTP/1.1\r\n"
    + (if "Host" in q.headers then "" else Line("Host", "127.0.0.1"))
    + Lines(q.headers, Walk(q.headers.Keys)) + "\r\n" + q.body
  }

  // ----- parsing -----

  function AddFront(c: char, r: Read<string>): Read<string>
  {
    match r case Ok(t, rest) => Ok([c] + t, rest) case Failed(e) => Failed(e)
  }

  function Newline(s: string, e: Error): (r: Read<string>)
    ensures r.Ok? ==> |r.rest| < |s|
  {
    if |s| > 1 && s[1] == '\n' then Ok("", s[2..]) else Failed(e)
  }

  /** Up to a space or the end of the line. */
  function ReadWord(s: string): (r: Read<string>)
    ensures r.Ok? ==> |r.rest| < |s|
  {
    if s == "" then Failed(EndOfStream)
    else if s[0] == ' ' then Ok("", s[1..])
    else if s[0] == '\r' then Newline(s, UnexpectedSymbol)
    else AddFront(s[0], ReadWord(s[1..]))
  }

  /** Up to the end of the line. */
  function ReadLine(s: string): (r: Read<string>)
    ensures r.Ok? ==> |r.rest| < |s|
  {
    if s == "" then Failed(EndOfStream)
    else if s[0] == '\r' then Newline(s, NewlineExpected)
    else AddFront(s[0], ReadLine(s[1..]))
  }

  /** The value of a header: a colon with a space after it is dropped. */
  function ReadValue(s: string): (r: Read<string>)
    ensures r.Ok? ==> |r.rest| < |s|
  {
    if s == "" then Failed(EndOfStream)
    else if s[0] == '\r' then Newline(s, UnexpectedSymbol)
    else if s[0] == ':' && |s| > 1 && s[1] == ' ' then AddFront(' ', ReadValue(s[2..]))
    else AddFront(s[0], ReadValue(s[1..]))
  }

  function AfterColon(s: string): (r: string)
    ensures |r| <= |s|
  {
    if s != "" && s[0] == ' ' then s[1..] else s
  }

  datatype Field = Field(name: string, value: string)

  /** One header line, its name so far given. */
  function ReadField(name: string, s: string): (r: Read<Field>)
    ensures r.Ok? ==> |r.rest| < |s|
    decreases |s|
  {
    if s == "" then Failed(EndOfStream)
    else if s[0] == '\r' then
      match Newline(s, UnexpectedSymbol) case Ok(_, rest) => Ok(Field(name, ""), rest) case Failed(e) => Failed(e)
    else if s[0] == ':' then
      if name == "" then Failed(EmptyHeader)
      else
        match ReadValue(AfterColon(s[1..]))
        case Ok(value, rest) => Ok(Field(name, value), rest)
        case Failed(e) => Failed(e)
    else ReadField(name + [s[0]], s[1..])
  }

  /** An empty line follows. */
  predicate Ends(s: string)
  {
    s != "" && s[0] == '\r'
  }

  /** Lines up to the empty one, each into the map. */
  function ReadHeaders(h: Headers, s: string): (r: Read<Headers>)
    ensures r.Ok? ==> |r.rest| < |s|
    decreases |s|
  {
    match ReadField("", s)
    case Failed(e) => Failed(e)
    case Ok(f, rest) =>
      var g := h[f.name := f.value];
      if Ends(rest) then
        match Newline(rest, UnexpectedSymbol) case Ok(_, after) => Ok(g, after) case Failed(e) => Failed(e)
      else ReadHeaders(g, rest)
  }

  function DropSpace(t: string): (r: string)
    ensures |r| <= |t|
  {
    if t != "" && IsSpace(t[0]) then DropSpace(t[1..]) else t
  }

  function DigitRun(t: string): (k: nat)
    ensures k <= |t| && AllDigits(t[..k])
  {
    if t == "" || !IsDigit(t[0]) then 0
    else
      var k := DigitRun(t[1..]);
      assert forall i :: 1 <= i < 1 + k ==> t[i] == t[1..][..k][i - 1];
      1 + k
  }

  /** The library's unsigned reader: spaces, a sign, digits; a minus sign wraps. */
  function Unsigned(t: string): Option<nat>
  {
    var u := DropSpace(t);
    var signed := u != "" && (u[0] == '-' || u[0] == '+');
    var digits := if signed then u[1..] else u;
    var k := DigitRun(digits);
    var v := NatValue(digits[..k]);
    if k == 0 || v >= TWO64 then None
    else if signed && u[0] == '-' then Some((TWO64 - v) % TWO64)
    else Some(v)
  }

  function BodyLength(h: Headers): Option<nat>
  {
    if LENGTH in h then Unsigned(h[LENGTH]) else Some(0)
  }

  function ReadBody(h: Headers, s: string): Read<string>
  {
    match BodyLength(h)
    case None => Failed(BadLength)
    case Some(n) => if n <= |s| then Ok(s[..n], s[n..]) else Failed(EndOfStream)
  }

  function ReceiveReply(r: Reply, s: string): Read<Reply>
  {
    match ReadWord(s)
    case Failed(e) => Failed(e)
    case Ok(_, s1) =>
      match ReadLine(s1)
      case Failed(e) => Failed(e)
      case Ok(text, s2) =>
        match ParseStatus(text)
        case None => Failed(UnexpectedSymbol)
        case Some(status) => ReceiveHeaders(SetStatus(r, status), s2)
  }

  /** From the headers on. */
  function ReceiveHeaders(r: Reply, s: string): Read<Reply>
  {
    match ReadHeaders(r.headers, s)
    case Failed(e) => Failed(e)
    case Ok(h, s1) =>
      match ReadBody(h, s1)
      case Failed(e) => Failed(e)
      case Ok(body, s2) => Ok(SetBody(r.(headers := h), body), s2)
  }

  function ReceiveMessage(q: Message, s: string): Read<Message>
  {
    match ReadWord(s)
    case Failed(e) => Failed(e)
    case Ok(verb, s1) =>
      match ReadWord(s1)
      case Failed(e) => Failed(e)
      case Ok(url, s2) =>
        match ReadWord(s2)
        case Failed(e) => Failed(e)
        case Ok(_, s3) => ReceiveRest(q.(verb := q.verb + verb, url := q.url + url), s3)
  }

  function ReceiveRest(q: Message, s: string): Read<Message>
  {
    match ReadHeaders(q.headers, s)
    case Failed(e) => Failed(e)
    case Ok(h, s1) =>
      match ReadBody(h, s1)
      case Failed(e) => Failed(e)
      case Ok(body, s2) => Ok(q.(headers := h, body := q.body + body), s2)
  }

  // ----- what a header keeps -----

  predicate Plain(name: string)
  {
    ':' !in name && '\r' !in name
  }

  predicate ColonSpace(v: string)
  {
    exists i :: 0 <= i < |v| - 1 && v[i] == ':' && v[i + 1] == ' '
  }

  /** A name and a value that can be read back. */
  predicate SafeField(name: string, value: string)
  {
    name != "" && Plain(name) && '\r' !in value && !ColonSpace(value)
  }

  predicate Safe(h: Headers)
  {
    forall n :: n in h ==> SafeField(n, h[n])
  }

  predicate AllPlain(h: Headers)
  {
    forall n :: n in h ==> Plain(n) && '\r' !in h[n]
  }

  /** A value without the colons that have a space after them. */
  function Squeeze(v: string): (r: string)
    ensures |r| <= |v|
  {
    if v == "" then ""
    else if v[0] == ':' && |v| > 1 && v[1] == ' ' then " " + Squeeze(v[2..])
    else [v[0]] + Squeeze(v[1..])
  }

  /** A value survives exactly when it has no colon with a space after it. */
  lemma {:induction false} SqueezeSame(v: string)
    ensures Squeeze(v) == v <==> !ColonSpace(v)
  {
    if v == "" {
    } else if v[0] == ':' && |v| > 1 && v[1] == ' ' {
      assert |Squeeze(v)| < |v|;
    } else {
      SqueezeSame(v[1..]);
      assert v == [v[0]] + v[1..];
      if ColonSpace(v) {
        var i :| 0 <= i < |v| - 1 && v[i] == ':' && v[i + 1] == ' ';
        assert v[1..][i - 1] == ':' && v[1..][i] == ' ';
      }
      if ColonSpace(v[1..]) {
        var i :| 0 <= i < |v[1..]| - 1 && v[1..][i] == ':' && v[1..][i + 1] == ' ';
        assert v[i + 1] == ':' && v[i + 2] == ' ';
      }
    }
  }

  lemma {:induction false} ValueRead(v: string, s: string)
    requires '\r' !in v
    ensures ReadValue(v + "\r\n" + s) == Ok(Squeeze(v), s)
  {
    var t := v + "\r\n" + s;
    if v == "" {
      assert t[2..] == s;
    } else if v[0] == ':' && |v| > 1 && v[1] == ' ' {
      ValueRead(v[2..], s);
      assert t[2..] == v[2..] + "\r\n" + s;
    } else {
      ValueRead(v[1..], s);
      assert t[1..] == v[1..] + "\r\n" + s;
      assert |v| == 1 ==> t[1] == '\r';
    }
  }

  lemma LineShape(name: string, value: string, s: string)
    ensures name == "" ==> Line(name, value) + s == ": " + (value + "\r\n" + s)
    ensures name != "" ==> Line(name, value) + s == [name[0]] + (Line(name[1..], value) + s)
  {
  }

  lemma {:induction false} FieldRead(done: string, name: string, value: string, s: string)
    requires Plain(name) && done + name != "" && '\r' !in value
    ensures ReadField(done, Line(name, value) + s) == Ok(Field(done + name, Squeeze(value)), s)
    decreases |name|
  {
    hide ReadValue, Squeeze, Line;
    LineShape(name, value, s);
    if name == "" {
      var tail := value + "\r\n" + s;
      assert AfterColon((": " + tail)[1..]) == tail && done + name == done;
      ValueRead(value, s);
    } else {
      FieldRead(done + [name[0]], name[1..], value, s);
      assert ([name[0]] + (Line(name[1..], value) + s))[1..] == Line(name[1..], value) + s;
      assert done + [name[0]] + name[1..] == done + name;
    }
  }

  /** The names and values that the lines hold, over what the map had. */
  function Overlay(base: Headers, h: Headers, names: seq<string>): Headers
    requires Covers(h, names)
  {
    base + map n | n in names :: Squeeze(h[n])
  }

  lemma OverlayNone(base: Headers, h: Headers)
    ensures Overlay(base, h, []) == base
  {
  }

  lemma OverlayStep(base: Headers, h: Headers, names: seq<string>)
    requires Covers(h, names) && names != []
    ensures Overlay(base[names[0] := Squeeze(h[names[0]])], h, names[1..]) == Overlay(base, h, names)
  {
    hide Squeeze;
    assert names == [names[0]] + names[1..];
  }

  predicate Readable(h: Headers, names: seq<string>)
    requires Covers(h, names)
  {
    forall n :: n in names ==> n != "" && Plain(n) && '\r' !in h[n]
  }

  lemma LinesSplit(h: Headers, names: seq<string>, s: string)
    requires Covers(h, names) && names != []
    ensures Lines(h, names) + s == Line(names[0], h[names[0]]) + (Lines(h, names[1..]) + s)
  {
  }

  lemma LinesStart(h: Headers, names: seq<string>, s: string)
    requires Covers(h, names) && names != [] && '\r' !in names[0]
    ensures !Ends(Lines(h, names) + s)
  {
  }

  lemma LinesEmpty(h: Headers)
    ensures Lines(h, []) == ""
  {
  }

  /** One line of a list is read, and the parser goes on unless the empty line follows. */
  lemma LineRead(base: Headers, name: string, value: string, tail: string)
    requires name != "" && Plain(name) && '\r' !in value
    ensures var g := base[name := Squeeze(value)];
            ReadHeaders(base, Line(name, value) + tail) ==
            if Ends(tail) then
              match Newline(tail, UnexpectedSymbol) case Ok(_, after) => Ok(g, after) case Failed(e) => Failed(e)
            else ReadHeaders(g, tail)
  {
    hide ReadField, Squeeze, Line;
    FieldRead("", name, value, tail);
    assert "" + name == name;
  }

  /** The lines of a list of names are read in turn, up to the empty line. */
  lemma {:induction false} HeadersRead(base: Headers, h: Headers, names: seq<string>, s: string)
    requires Covers(h, names) && names != [] && Readable(h, names)
    ensures ReadHeaders(base, Lines(h, names) + ("\r\n" + s)) == Ok(Overlay(base, h, names), s)
    decreases |names|
  {
    hide ReadHeaders, Squeeze, Line, Lines, Overlay;
    OverlayStep(base, h, names);
    var name, tail := names[0], Lines(h, names[1..]) + ("\r\n" + s);
    LinesSplit(h, names, "\r\n" + s);
    LineRead(base, name, h[name], tail);
    var g := base[name := Squeeze(h[name])];
    if |names| == 1 {
      LinesEmpty(h);
      assert names[1..] == [] && tail == "\r\n" + s;
      assert tail[2..] == s;
      assert Overlay(g, h, []) == g by { OverlayNone(g, h); }
    } else {
      assert names[1..][0] in names;
      LinesStart(h, names[1..], "\r\n" + s);
      HeadersRead(g, h, names[1..], s);
    }
  }

  /** A header without a name stops the parser. */
  lemma {:induction false} NamelessRefused(base: Headers, h: Headers, names: seq<string>, s: string)
    requires Covers(h, names) && "" in names && forall n :: n in names ==> Plain(n) && '\r' !in h[n]
    ensures ReadHeaders(base, Lines(h, names) + ("\r\n" + s)).Failed?
    decreases |names|
  {
    hide Lines, Squeeze;
    var name, tail := names[0], Lines(h, names[1..]) + ("\r\n" + s);
    LinesSplit(h, names, "\r\n" + s);
    if name == "" {
    } else {
      hide Line, ReadHeaders;
      LineRead(base, name, h[name], tail);
      assert "" in names[1..] && names[1..][0] in names;
      LinesStart(h, names[1..], "\r\n" + s);
      NamelessRefused(base[name := Squeeze(h[name])], h, names[1..], s);
    }
  }

  lemma {:induction false} WordPlain(s: string)
    ensures ReadWord(s).Ok? ==> ' ' !in ReadWord(s).value && '\r' !in ReadWord(s).value
  {
    if s == "" {
    } else {
      WordPlain(s[1..]);
    }
  }

  lemma {:induction false} ValuePlain(s: string)
    ensures ReadValue(s).Ok? ==> '\r' !in ReadValue(s).value
  {
    if s == "" {
    } else {
      ValuePlain(s[1..]);
    }
    if |s| > 1 { ValuePlain(s[2..]); }
  }

  lemma {:induction false} FieldPlain(name: string, s: string)
    requires Plain(name)
    ensures ReadField(name, s).Ok? ==> Plain(ReadField(name, s).value.name) && '\r' !in ReadField(name, s).value.value
    decreases |s|
  {
    hide ReadValue;
    if s == "" {
    } else {
      ValuePlain(AfterColon(s[1..]));
      if s[0] != '\r' && s[0] != ':' { FieldPlain(name + [s[0]], s[1..]); }
    }
  }

  /** Whatever is read has plain names and no line break in a value. */
  lemma {:induction false} HeadersPlain(h: Headers, s: string)
    requires AllPlain(h)
    ensures ReadHeaders(h, s).Ok? ==> AllPlain(ReadHeaders(h, s).value)
    decreases |s|
  {
    hide ReadField;
    FieldPlain("", s);
    match ReadField("", s)
    case Failed(_) =>
    case Ok(f, rest) => if !Ends(rest) { HeadersPlain(h[f.name := f.value], rest); }
  }

  /** Every header was read as it was written, save perhaps those known to be safe. */
  predicate Kept(h: Headers, g: Headers)
  {
    forall n :: n in h && !SafeField(n, h[n]) ==> n in g && g[n] == h[n]
  }

  ghost predicate Lists(h: Headers, names: seq<string>)
  {
    forall n :: n in names <==> n in h
  }

  /** Unsafe headers are never read back as they were. */
  lemma KeptIsSafe(base: Headers, h: Headers, names: seq<string>, s: string)
    requires AllPlain(base) && Lists(h, names) && names != []
    ensures var r := ReadHeaders(base, Lines(h, names) + ("\r\n" + s)); r.Ok? && Kept(h, r.value) ==> Safe(h)
  {
    hide ReadHeaders, Lines;
    var r := ReadHeaders(base, Lines(h, names) + ("\r\n" + s));
    if r.Ok? && Kept(h, r.value) {
      HeadersPlain(base, Lines(h, names) + ("\r\n" + s));
      assert forall n :: n in h ==> Plain(n) && '\r' !in h[n];
      if "" in names {
        NamelessRefused(base, h, names, s);
      } else {
        HeadersRead(base, h, names, s);
        forall n | n in h ensures SafeField(n, h[n]) { SqueezeSame(h[n]); }
      }
    }
  }

  /** Safe headers are read back over what the map had. */
  lemma SafeIsKept(base: Headers, h: Headers, names: seq<string>, s: string)
    requires Safe(h) && Lists(h, names) && names != []
    ensures ReadHeaders(base, Lines(h, names) + ("\r\n" + s)) == Ok(base + h, s)
  {
    hide ReadHeaders, Lines;
    HeadersRead(base, h, names, s);
    forall n | n in h ensures Squeeze(h[n]) == h[n] { SqueezeSame(h[n]); }
    assert Overlay(base, h, names) == base + h;
  }

  // ----- the body -----

  lemma {:induction false} AllRun(t: string)
    requires AllDigits(t)
    ensures DigitRun(t) == |t|
  {
    if t == "" {
    } else {
      AllRun(t[1..]);
    }
  }

  lemma UnsignedOfText(n: nat)
    requires n < TWO64
    ensures Unsigned(NatText(n)) == Some(n)
  {
    hide NatText, NatValue;
    var t := NatText(n);
    assert IsDigit(t[0]);
    AllRun(t);
    assert t[..|t|] == t;
    NatRoundTrip(n);
  }

  /** With a length that reads as that of the body, exactly the body is read. */
  lemma BodyRead(h: Headers, body: string, s: string)
    requires BodyLength(h) == Some(|body|)
    ensures ReadBody(h, body + s) == Ok(body, s)
  {
    hide BodyLength;
    assert (body + s)[..|body|] == body && (body + s)[|body|..] == s;
  }

  lemma AgreedLength(h: Headers, body: string)
    requires LengthAgrees(h, body)
    ensures BodyLength(h) == Some(|body|)
  {
    hide Unsigned, NatText;
    UnsignedOfText(|body|);
  }

  /** A length that was read is a 64-bit word. */
  lemma LengthIsWord(h: Headers)
    ensures BodyLength(h).Some? ==> BodyLength(h).value < TWO64
  {
    hide NatValue, DigitRun, DropSpace;
  }

  lemma DigitsSafe(n: nat)
    ensures SafeField(LENGTH, NatText(n))
  {
    hide NatText;
  }

  // ----- responses -----

  lemma {:induction false} LineOfText(t: string, s: string)
    requires '\r' !in t
    ensures ReadLine(t + "\r\n" + s) == Ok(t, s)
  {
    var u := t + "\r\n" + s;
    if t == "" {
      assert u[2..] == s;
    } else {
      LineOfText(t[1..], s);
      assert t == [t[0]] + t[1..];
      assert u[1..] == t[1..] + "\r\n" + s;
    }
  }

  lemma {:induction false} WordBeforeSpace(t: string, s: string)
    requires ' ' !in t && '\r' !in t
    ensures ReadWord(t + " " + s) == Ok(t, s)
  {
    var u := t + " " + s;
    if t == "" {
      assert u[1..] == s;
    } else {
      WordBeforeSpace(t[1..], s);
      assert t == [t[0]] + t[1..];
      assert u[1..] == t[1..] + " " + s;
    }
  }

  lemma {:induction false} WordBeforeLine(t: string, s: string)
    requires ' ' !in t && '\r' !in t
    ensures ReadWord(t + "\r\n" + s) == Ok(t, s)
  {
    var u := t + "\r\n" + s;
    if t == "" {
      assert u[2..] == s;
    } else {
      WordBeforeLine(t[1..], s);
      assert t == [t[0]] + t[1..];
      assert u[1..] == t[1..] + "\r\n" + s;
    }
  }

  lemma StatusRead(status: Status)
    ensures ParseStatus(StatusText(status)) == Some(status) && '\r' !in StatusText(status)
  {
  }

  /** The first line is read and sets the status. */
  lemma ReplyHead(r: Reply, rest: string)
    ensures ReceiveReply(FreshReply(), PrintReply(r) + rest) ==
            ReceiveHeaders(SetStatus(FreshReply(), r.status),
                           Lines(r.headers, Walk(r.headers.Keys)) + ("\r\n" + (r.body + rest)))
  {
    hide ReadWord, ReadLine, Lines, Walk, ReceiveHeaders, SetStatus, FreshReply, StatusText, ParseStatus;
    var tail := Lines(r.headers, Walk(r.headers.Keys)) + ("\r\n" + (r.body + rest));
    var line := StatusText(r.status) + "\r\n" + tail;
    assert PrintReply(r) + rest == "HTTP/1.1" + " " + line;
    WordBeforeSpace("HTTP/1.1", line);
    LineOfText(StatusText(r.status), tail) by { StatusRead(r.status); }
    StatusRead(r.status);
  }

  /** What the response holds when its headers are read. */
  function Base(status: Status): Headers
  {
    SetStatus(FreshReply(), status).headers
  }

  lemma BaseHolds(status: Status)
    ensures AllPlain(Base(status))
    ensures forall n :: n in Base(status) ==> n == "Server" || (status != Status200 && n == LENGTH)
    ensures status != Status200 ==> LENGTH in Base(status) && Base(status)[LENGTH] == NatText(|ErrorBody(status)|)
  {
    hide NatText;
    if status != Status200 { DigitsSafe(|ErrorBody(status)|); }
  }

  /** The headers can be read back, and an error has a body. */
  predicate Restorable(r: Reply)
  {
    Safe(r.headers) && (r.status == Status200 || r.body != "")
  }

  lemma WalkLists(r: Reply)
    requires r.headers != map[]
    ensures Lists(r.headers, Walk(r.headers.Keys)) && Walk(r.headers.Keys) != []
  {
    var n :| n in r.headers;
    assert n in Walk(r.headers.Keys);
  }

  lemma StatusSet(status: Status)
    ensures var r := SetStatus(FreshReply(), status); r.status == status && r.headers == Base(status)
  {
    hide WithLength;
  }

  /** What the status line leaves is overwritten, unless it is the length of an error without a body. */
  lemma BaseUnder(r: Reply)
    requires Consistent(r) && (r.status == Status200 || r.body != "")
    ensures Base(r.status) + r.headers == r.headers
  {
    hide NatText, Base;
    BaseHolds(r.status);
  }

  lemma LengthKept(h: Headers, body: string)
    requires LengthAgrees(h, body)
    ensures WithLength(h, body) == h
  {
    hide NatText;
  }

  /** Whatever its length header says, a response with safe headers is read as that header and its status tell. */
  lemma SafeReplyRead(r: Reply, rest: string)
    requires r.headers != map[] && Safe(r.headers)
    ensures var h := Base(r.status) + r.headers;
      ReceiveReply(FreshReply(), PrintReply(r) + rest) ==
      match ReadBody(h, r.body + rest)
      case Failed(e) => Failed(e)
      case Ok(body, s) => Ok(Reply(r.status, WithLength(h, body), body), s)
  {
    hide PrintReply, ReceiveReply, Safe, ReadHeaders, ReadBody, Lines, Walk, Base, SetStatus, FreshReply, WithLength;
    ReplyHead(r, rest);
    StatusSet(r.status);
    WalkLists(r);
    SafeIsKept(Base(r.status), r.headers, Walk(r.headers.Keys), r.body + rest);
  }

  lemma ReplyRestored(r: Reply, rest: string)
    requires Consistent(r) && Restorable(r)
    ensures ReceiveReply(FreshReply(), PrintReply(r) + rest) == Ok(r, rest)
  {
    hide PrintReply, ReceiveReply, Safe, ReadBody, Base, FreshReply, WithLength, LengthAgrees;
    SafeReplyRead(r, rest);
    BaseUnder(r);
    AgreedLength(r.headers, r.body);
    BodyRead(r.headers, r.body, rest);
    LengthKept(r.headers, r.body);
  }

  /** An error without a body keeps the length that its status line set, and takes that much of what follows. */
  lemma BareError(r: Reply, rest: string)
    requires Consistent(r) && Safe(r.headers) && r.status != Status200 && r.body == ""
    ensures var n := |ErrorBody(r.status)|;
            ReceiveReply(FreshReply(), PrintReply(r) + rest) ==
            if |rest| < n then Failed(EndOfStream) else Ok(SetBody(r, rest[..n]), rest[n..])
  {
    hide PrintReply, ReceiveReply, Safe, ReadBody, Base, FreshReply, ErrorBody, WithLength;
    SafeReplyRead(r, rest);
    assert r.body + rest == rest;
    BareBody(r, rest);
  }

  lemma BareBody(r: Reply, rest: string)
    requires Consistent(r) && r.status != Status200 && r.body == ""
    ensures var n, h := |ErrorBody(r.status)|, Base(r.status) + r.headers;
      ReadBody(h, rest) == (if |rest| < n then Failed(EndOfStream) else Ok(rest[..n], rest[n..])) &&
      (n <= |rest| ==> WithLength(h, rest[..n]) == WithLength(r.headers, rest[..n]))
  {
    hide Unsigned, NatText, Base;
    BaseHolds(r.status);
    var n := |ErrorBody(r.status)|;
    UnsignedOfText(n);
    var h := Base(r.status) + r.headers;
    assert h[LENGTH] == NatText(n);
    if n <= |rest| {
      assert WithLength(h, rest[..n]) == WithLength(r.headers, rest[..n]);
    }
  }

  /** Setting the body changes no header but the length, which is safe. */
  lemma LengthAside(h: Headers, g: Headers, body: string)
    requires WithLength(g, body) == h
    ensures Kept(h, g)
  {
    hide NatText, SafeField;
    DigitsSafe(|body|);
  }

  lemma RestoredIsSafe(r: Reply, rest: string)
    requires Consistent(r)
    requires ReceiveReply(FreshReply(), PrintReply(r) + rest) == Ok(r, rest)
    ensures Safe(r.headers)
  {
    hide PrintReply, ReceiveReply, Safe, ReadHeaders, ReadBody, Lines, Walk, NatText;
    ReplyHead(r, rest);
    BaseHolds(r.status);
    WalkLists(r);
    var names := Walk(r.headers.Keys);
    var read := ReadHeaders(Base(r.status), Lines(r.headers, names) + ("\r\n" + (r.body + rest)));
    assert read.Ok? && WithLength(read.value, r.body) == r.headers;
    LengthAside(r.headers, read.value, r.body);
    KeptIsSafe(Base(r.status), r.headers, names, r.body + rest);
  }

  lemma {:induction false} HeadersGrow(h: Headers, s: string, n: string)
    requires n in h
    ensures ReadHeaders(h, s).Ok? ==> n in ReadHeaders(h, s).value
    decreases |s|
  {
    hide ReadField;
    match ReadField("", s)
    case Failed(_) =>
    case Ok(f, rest) =>
      if Ends(rest) {
      } else {
        HeadersGrow(h[f.name := f.value], rest, n);
      }
  }

  /** Whatever is received has the server's header, and a length header in step with its body. */
  lemma ReceivedConsistent(s: string)
    ensures var r := ReceiveReply(FreshReply(), s); r.Ok? ==> Consistent(r.value)
  {
    hide ReadWord, ReadLine, ParseStatus, ReceiveHeaders;
    match ReadWord(s)
    case Failed(_) =>
    case Ok(_, s1) =>
      match ReadLine(s1)
      case Failed(_) =>
      case Ok(text, s2) =>
        match ParseStatus(text)
        case None =>
        case Some(status) => HeadersConsistent(status, s2);
  }

  lemma HeadersConsistent(status: Status, s: string)
    ensures var r := ReceiveHeaders(SetStatus(FreshReply(), status), s); r.Ok? ==> Consistent(r.value)
  {
    hide ReadHeaders, BodyLength, NatText, SetStatus, FreshReply;
    ServerSet(status);
    HeadersGrow(Base(status), s, "Server");
    match ReadHeaders(Base(status), s)
    case Failed(_) =>
    case Ok(h, _) => LengthIsWord(h);
  }

  lemma ServerSet(status: Status)
    ensures "Server" in Base(status)
  {
    hide NatText;
  }

  /**
    A response is read back, with what follows left over, if and only if its length header is in step with its body,
    its headers are safe and an error has a body.
   */
  lemma ReplyRoundTrip(r: Reply, rest: string)
    ensures ReceiveReply(FreshReply(), PrintReply(r) + rest) == Ok(r, rest) <==> Consistent(r) && Restorable(r)
  {
    hide PrintReply, ReceiveReply, Safe, Consistent, NatText;
    ReceivedConsistent(PrintReply(r) + rest);
    if !Consistent(r) {
    } else if Restorable(r) {
      ReplyRestored(r, rest);
    } else if Safe(r.headers) {
      BareError(r, rest);
    } else if ReceiveReply(FreshReply(), PrintReply(r) + rest) == Ok(r, rest) {
      RestoredIsSafe(r, rest);
    }
  }

  /** The same of whatever the setters build; the length is in step unless it was set by hand. */
  lemma BuiltRoundTrip(calls: seq<Setter>, rest: string)
    ensures var r := Built(calls);
      ReceiveReply(FreshReply(), PrintReply(r) + rest) == Ok(r, rest) <==> Consistent(r) && Restorable(r)
    ensures Ordinary(calls) ==> Consistent(Built(calls))
  {
    hide PrintReply, ReceiveReply, Restorable, Built, Ordinary, Consistent;
    if Ordinary(calls) { BuiltConsistent(calls); }
    ReplyRoundTrip(Built(calls), rest);
  }

  lemma PlusThree()
    ensures Unsigned("+3") == Some(3) && NatText(3) == "3"
  {
    assert "+3"[1..] == "3" && "3"[..1] == "3" && "3"[..0] == "" && "3"[1..] == "";
  }

  /** A length set by hand to "+3" reads as three, and comes back as "3". */
  lemma HandSetLength(rest: string)
    ensures var h := FreshReply().headers;
      ReceiveReply(FreshReply(), PrintReply(Reply(Status200, h[LENGTH := "+3"], "abc")) + rest) ==
      Ok(Reply(Status200, h[LENGTH := "3"], "abc"), rest)
  {
    hide PrintReply, ReceiveReply, ReadBody, Unsigned, NatText;
    var r := Reply(Status200, FreshReply().headers[LENGTH := "+3"], "abc");
    PlusThree();
    assert !ColonSpace("Cryptonote-based HTTP server");
    assert LENGTH in r.headers;
    SafeReplyRead(r, rest);
    assert Base(Status200) + r.headers == r.headers;
    BodyRead(r.headers, "abc", rest);
    assert WithLength(r.headers, "abc") == FreshReply().headers[LENGTH := "3"];
  }

  // ----- requests -----

  function FreshMessage(): Message
  {
    Message("", "", map[], "")
  }

  lemma {:induction false} LinesAgree(g: Headers, h: Headers, names: seq<string>)
    requires Covers(g, names) && Covers(h, names) && forall n :: n in names ==> g[n] == h[n]
    ensures Lines(g, names) == Lines(h, names)
  {
    if names == [] {
    } else {
      LinesAgree(g, h, names[1..]);
    }
  }

  /** The names in the order in which a request prints them. */
  function HostFirst(h: Headers): (names: seq<string>)
    ensures names != [] && forall n :: n in names ==> n in WithHost(h)
  {
    if "Host" in h then
      assert "Host" in Walk(h.Keys);
      Walk(h.Keys)
    else ["Host"] + Walk(h.Keys)
  }

  lemma HostFirstLists(h: Headers)
    ensures Lists(WithHost(h), HostFirst(h))
    ensures (if "Host" in h then "" else Line("Host", "127.0.0.1")) + Lines(h, Walk(h.Keys)) ==
            Lines(WithHost(h), HostFirst(h))
  {
    hide Line, Walk;
    if "Host" in h {
      assert "" + Lines(h, Walk(h.Keys)) == Lines(h, Walk(h.Keys));
    } else {
      LinesAgree(h, WithHost(h), Walk(h.Keys));
      assert (["Host"] + Walk(h.Keys))[1..] == Walk(h.Keys);
    }
  }

  /** The lines of a request with what follows them. */
  function Sent(q: Message, rest: string): string
  {
    Lines(WithHost(q.headers), HostFirst(q.headers)) + ("\r\n" + (q.body + rest))
  }

  /** A request as the other side reads it. */
  function Delivered(q: Message): Message
  {
    Message("POST", q.url, WithHost(q.headers), q.body)
  }

  lemma Join3(a: string, b: string, c: string)
    ensures a + b + c == a + (b + c)
  {
  }

  lemma MessageText(q: Message, rest: string)
    ensures PrintMessage(q) + rest == "POST" + " " + (q.url + " " + ("HTTP/1.1" + "\r\n" + Sent(q, rest)))
  {
    hide Lines, Line, Walk, WithHost, HostFirst;
    HostFirstLists(q.headers);
    var host := if "Host" in q.headers then "" else Line("Host", "127.0.0.1");
    var lines := Lines(q.headers, Walk(q.headers.Keys));
    var first := "POST " + q.url + " HTTP/1.1\r\n";
    Join3(first, host, lines);
    Join3(first + (host + lines), "\r\n", q.body);
    Join3(first + (host + lines), "\r\n" + q.body, rest);
    Join3("\r\n", q.body, rest);
    Join3(first, host + lines, "\r\n" + (q.body + rest));
    FirstLine(q.url, Sent(q, rest));
  }

  lemma FirstLine(url: string, s: string)
    ensures "POST " + url + " HTTP/1.1\r\n" + s == "POST" + " " + (url + " " + ("HTTP/1.1" + "\r\n" + s))
  {
    assert "POST " == "POST" + " " && " HTTP/1.1\r\n" == " " + ("HTTP/1.1" + "\r\n");
    Join3("POST " + url, " ", "HTTP/1.1" + "\r\n");
    Join3("POST " + url + " ", "HTTP/1.1" + "\r\n", s);
    Join3("POST ", url, " ");
    Join3("POST ", url + " ", "HTTP/1.1" + "\r\n" + s);
  }

  lemma MessageVerb(q: Message, rest: string)
    ensures ReadWord(PrintMessage(q) + rest) == Ok("POST", q.url + " " + ("HTTP/1.1" + "\r\n" + Sent(q, rest)))
  {
    hide ReadWord, PrintMessage, Sent;
    MessageText(q, rest);
    WordBeforeSpace("POST", q.url + " " + ("HTTP/1.1" + "\r\n" + Sent(q, rest)));
  }

  /** The first line is read when the address is one word. */
  lemma MessageHead(q: Message, rest: string)
    requires ' ' !in q.url && '\r' !in q.url
    ensures ReceiveMessage(FreshMessage(), PrintMessage(q) + rest) ==
            ReceiveRest(Message("POST", q.url, map[], ""), Sent(q, rest))
  {
    hide ReadWord, PrintMessage, Sent, ReceiveRest;
    MessageVerb(q, rest);
    WordBeforeSpace(q.url, "HTTP/1.1" + "\r\n" + Sent(q, rest));
    WordBeforeLine("HTTP/1.1", Sent(q, rest));
    assert "" + "POST" == "POST" && "" + q.url == q.url;
  }

  lemma UrlIsWord(q: Message, rest: string)
    requires ReceiveMessage(FreshMessage(), PrintMessage(q) + rest) == Ok(Delivered(q), rest)
    ensures ' ' !in q.url && '\r' !in q.url
  {
    hide ReadWord, PrintMessage, Sent, WithHost, ReadHeaders, ReadBody;
    MessageVerb(q, rest);
    var s := q.url + " " + ("HTTP/1.1" + "\r\n" + Sent(q, rest));
    WordPlain(s);
    var url := ReadWord(s).value;
    assert "" + url == url;
  }

  lemma HostKeeps(h: Headers)
    ensures Safe(h) ==> Safe(WithHost(h))
    ensures BodyLength(WithHost(h)) == BodyLength(h)
  {
    hide Unsigned;
    var host := "127.0.0.1";
    assert SafeField("Host", host);
  }

  lemma MessageDelivered(q: Message, rest: string)
    requires BodyLength(q.headers) == Some(|q.body|)
    requires ' ' !in q.url && '\r' !in q.url && Safe(q.headers)
    ensures ReceiveMessage(FreshMessage(), PrintMessage(q) + rest) == Ok(Delivered(q), rest)
  {
    hide PrintMessage, ReceiveMessage, ReadHeaders, ReadBody, Lines, HostFirst, Safe, BodyLength, WithHost;
    MessageHead(q, rest);
    HostFirstLists(q.headers);
    var h := WithHost(q.headers);
    HostKeeps(q.headers);
    SafeIsKept(map[], h, HostFirst(q.headers), q.body + rest);
    assert map[] + h == h;
    BodyRead(h, q.body, rest);
    assert "" + q.body == q.body;
  }

  lemma DeliveredIsSafe(q: Message, rest: string)
    requires ' ' !in q.url && '\r' !in q.url
    requires ReceiveMessage(FreshMessage(), PrintMessage(q) + rest) == Ok(Delivered(q), rest)
    ensures Safe(q.headers)
  {
    hide PrintMessage, ReceiveMessage, ReadHeaders, ReadBody, Lines, HostFirst, SafeField;
    MessageHead(q, rest);
    HostFirstLists(q.headers);
    KeptIsSafe(map[], WithHost(q.headers), HostFirst(q.headers), q.body + rest);
    assert forall n :: n in q.headers ==> WithHost(q.headers)[n] == q.headers[n];
  }

  lemma DeliveredLength(q: Message, rest: string)
    requires ' ' !in q.url && '\r' !in q.url
    requires ReceiveMessage(FreshMessage(), PrintMessage(q) + rest) == Ok(Delivered(q), rest)
    ensures BodyLength(q.headers) == Some(|q.body|)
  {
    hide PrintMessage, ReceiveMessage, ReadHeaders, Sent, WithHost, BodyLength;
    MessageHead(q, rest);
    HostKeeps(q.headers);
  }

  /** What a request needs to be read as it was sent. */
  predicate Deliverable(q: Message)
  {
    ' ' !in q.url && '\r' !in q.url && Safe(q.headers) && BodyLength(q.headers) == Some(|q.body|)
  }

  /**
    A request is delivered, with what follows left over, if and only if its address is one word, its headers are safe
    and its length header reads as the length of its body.
   */
  lemma MessageRoundTrip(q: Message, rest: string)
    ensures ReceiveMessage(FreshMessage(), PrintMessage(q) + rest) == Ok(Delivered(q), rest) <==> Deliverable(q)
  {
    hide PrintMessage, ReceiveMessage, Safe, BodyLength, Delivered;
    if Deliverable(q) {
      MessageDelivered(q, rest);
    } else if ReceiveMessage(FreshMessage(), PrintMessage(q) + rest) == Ok(Delivered(q), rest) {
      UrlIsWord(q, rest);
      DeliveredIsSafe(q, rest);
      DeliveredLength(q, rest);
    }
  }

  datatype RequestSetter = DoUrl(url: string) | DoRequestHeader(name: string, value: string) | DoRequestBody(body: string)

  function SetRequest(q: Message, a: RequestSetter): Message
  {
    match a
    case DoUrl(url) => q.(url := url)
    case DoRequestHeader(name, value) => q.(headers := q.headers[name := value])
    case DoRequestBody(body) => q.(headers := WithLength(q.headers, body), body := body)
  }

  /** The request that the calls build. */
  function BuiltMessage(calls: seq<RequestSetter>): Message
  {
    if calls == [] then FreshMessage() else SetRequest(BuiltMessage(calls[..|calls| - 1]), calls[|calls| - 1])
  }

  predicate OrdinaryRequest(calls: seq<RequestSetter>)
  {
    forall k :: 0 <= k < |calls| ==>
      (calls[k].DoRequestHeader? ==> calls[k].name != LENGTH) &&
      (calls[k].DoRequestBody? ==> |calls[k].body| < TWO64)
  }

  lemma {:induction false} BuiltMessageAgrees(calls: seq<RequestSetter>)
    requires OrdinaryRequest(calls)
    ensures LengthAgrees(BuiltMessage(calls).headers, BuiltMessage(calls).body)
  {
    hide NatText;
    if calls == [] {
    } else {
      BuiltMessageAgrees(calls[..|calls| - 1]);
    }
  }

  /** The same of whatever the setters build; the length reads right unless it was set by hand. */
  lemma BuiltMessageRoundTrip(calls: seq<RequestSetter>, rest: string)
    ensures var q := BuiltMessage(calls);
      ReceiveMessage(FreshMessage(), PrintMessage(q) + rest) == Ok(Delivered(q), rest) <==> Deliverable(q)
    ensures OrdinaryRequest(calls) ==> var q := BuiltMessage(calls); BodyLength(q.headers) == Some(|q.body|)
  {
    hide PrintMessage, ReceiveMessage, Deliverable, BuiltMessage, OrdinaryRequest, Delivered, LengthAgrees;
    if OrdinaryRequest(calls) {
      BuiltMessageAgrees(calls);
      AgreedLength(BuiltMessage(calls).headers, BuiltMessage(calls).body);
    }
    MessageRoundTrip(BuiltMessage(calls), rest);
  }
}
