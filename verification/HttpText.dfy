/** The fixed texts of src/HTTP and exactly which texts its small readers take. */
module HttpText {
  import opened Text
  import opened Words
  import opened Http

  // ----- fixed texts -----

  /** The first line of a response, and the empty line and the body at its end. */
  lemma ReplyText(r: Reply)
    ensures var first := match r.status
              case Status200 => "HTTP/1.1 200 OK\r\n"
              case Status404 => "HTTP/1.1 404 Not Found\r\n"
              case Status500 => "HTTP/1.1 500 Internal Server Error\r\n";
      PrintReply(r) == first + Lines(r.headers, Walk(r.headers.Keys)) + "\r\n" + r.body
  {
    hide Lines, Walk;
    assert "HTTP/1.1 " + "200 OK" + "\r\n" == "HTTP/1.1 200 OK\r\n";
    assert "HTTP/1.1 " + "404 Not Found" + "\r\n" == "HTTP/1.1 404 Not Found\r\n";
    assert "HTTP/1.1 " + "500 Internal Server Error" + "\r\n" == "HTTP/1.1 500 Internal Server Error\r\n";
  }

  lemma MessageTexts(q: Message)
    ensures var host := if "Host" in q.headers then "" else "Host: 127.0.0.1\r\n";
      PrintMessage(q) ==
        "POST " + q.url + " HTTP/1.1\r\n" + host + Lines(q.headers, Walk(q.headers.Keys)) + "\r\n" + q.body
  {
    hide Lines, Walk;
    assert Line("Host", "127.0.0.1") == "Host: 127.0.0.1\r\n";
  }

  /** A header line, and the lines of the map in the order of its names. */
  lemma LinesText(h: Headers, names: seq<string>)
    requires Covers(h, names) && names != []
    ensures Lines(h, names) == names[0] + ": " + h[names[0]] + "\r\n" + Lines(h, names[1..])
  {
  }

  /** What a fresh response has, and what an error status makes of it. */
  lemma FixedReplies()
    ensures FreshReply() == Reply(Status200, map["Server" := "Cryptonote-based HTTP server"], "")
    ensures ErrorBody(Status404) == "Requested url is not found\n"
    ensures ErrorBody(Status500) == "Internal server error is occured\n"
  {
  }

  /** Setting the body replaces it and sets or removes its length, and changes no other header. */
  lemma BodySet(r: Reply, body: string, name: string)
    ensures var s := SetBody(r, body);
      s.status == r.status && s.body == body &&
      (name != "Content-Length" ==> (name in s.headers <==> name in r.headers) &&
                                    (name in r.headers ==> s.headers[name] == r.headers[name])) &&
      ("Content-Length" in s.headers <==> body != "") &&
      (body != "" ==> s.headers["Content-Length"] == NatText(|body|))
  {
    hide NatText;
  }

  /** Setting an error status sets its text as the body; setting 200 changes nothing else. */
  lemma StatusSets(r: Reply, s: Status)
    ensures SetStatus(r, Status200) == r.(status := Status200)
    ensures SetStatus(r, Status404) == SetBody(r.(status := Status404), "Requested url is not found\n")
    ensures SetStatus(r, Status500) == SetBody(r.(status := Status500), "Internal server error is occured\n")
  {
    hide WithLength;
  }

  /** The status words that are understood. */
  lemma StatusWords(t: string)
    ensures ParseStatus(t) == Some(Status200) <==> t == "200 OK" || t == "200 Ok"
    ensures ParseStatus(t) == Some(Status404) <==> t == "404 Not Found"
    ensures ParseStatus(t) == Some(Status500) <==> t == "500 Internal Server Error"
  {
    assert "200 OK"[0] == '2' && "200 Ok"[0] == '2' && "404 Not Found"[0] == '4' && "500 Internal Server Error"[0] == '5';
  }

  // ----- words and lines -----

  /** A word is read if and only if it stands there without spaces and line breaks, before a space or a line end. */
  lemma {:induction false} WordExact(s: string, w: string, rest: string)
    ensures ReadWord(s) == Ok(w, rest) <==>
            ' ' !in w && '\r' !in w && (s == w + " " + rest || s == w + "\r\n" + rest)
  {
    if ' ' !in w && '\r' !in w {
      WordBeforeSpace(w, rest);
      WordBeforeLine(w, rest);
    }
    if ReadWord(s) == Ok(w, rest) {
      WordPlain(s);
      WordStands(s);
    }
  }

  lemma Regroup(a: string, b: string, c: string, d: string)
    ensures a + (b + c + d) == a + b + c + d
  {
  }

  lemma {:induction false} WordStands(s: string)
    requires ReadWord(s).Ok?
    ensures var r := ReadWord(s); s == r.value + " " + r.rest || s == r.value + "\r\n" + r.rest
  {
    if s[0] == ' ' {
      assert s == "" + " " + s[1..];
    } else if s[0] == '\r' {
      assert s == "" + "\r\n" + s[2..];
    } else {
      WordStands(s[1..]);
      var r := ReadWord(s[1..]);
      assert s == [s[0]] + s[1..];
      Regroup([s[0]], r.value, " ", r.rest);
      Regroup([s[0]], r.value, "\r\n", r.rest);
    }
  }

  /** Why a word is not read: the stream ends, or a carriage return is not followed by a line feed. */
  lemma {:induction false} WordRefused(s: string)
    requires ReadWord(s).Failed?
    ensures ReadWord(s).reason == EndOfStream <==> ' ' !in s && '\r' !in s
    ensures ReadWord(s).reason == EndOfStream || ReadWord(s).reason == UnexpectedSymbol
  {
    if s == "" {
    } else if s[0] == '\r' {
    } else {
      WordRefused(s[1..]);
      assert s == [s[0]] + s[1..];
    }
  }

  /** The status line is read if and only if it ends in a carriage return and a line feed. */
  lemma LineExact(s: string, t: string, rest: string)
    ensures ReadLine(s) == Ok(t, rest) <==> '\r' !in t && s == t + "\r\n" + rest
  {
    if '\r' !in t && s == t + "\r\n" + rest { LineOfText(t, rest); }
    if ReadLine(s) == Ok(t, rest) { LineStands(s); }
  }

  lemma {:induction false} LineStands(s: string)
    requires ReadLine(s).Ok?
    ensures '\r' !in ReadLine(s).value && s == ReadLine(s).value + "\r\n" + ReadLine(s).rest
  {
    if s[0] == '\r' {
      assert s == "" + "\r\n" + s[2..];
    } else {
      LineStands(s[1..]);
      var r := ReadLine(s[1..]);
      assert s == [s[0]] + s[1..];
      Regroup([s[0]], r.value, "\r\n", r.rest);
    }
  }

  lemma {:induction false} LineRefused(s: string)
    requires ReadLine(s).Failed?
    ensures ReadLine(s).reason == if '\r' in s then NewlineExpected else EndOfStream
  {
    if s == "" {
    } else if s[0] == '\r' {
    } else {
      LineRefused(s[1..]);
      assert s == [s[0]] + s[1..];
    }
  }

  // ----- headers -----

  /** A value is read if and only if a text without carriage returns stands there, of which it is what is kept. */
  lemma ValueExact(s: string, v: string, rest: string)
    ensures ReadValue(s) == Ok(v, rest) <==>
            exists t :: '\r' !in t && v == Squeeze(t) && s == t + "\r\n" + rest
  {
    if ReadValue(s) == Ok(v, rest) {
      var t := ValueStands(s);
      assert '\r' !in t && v == Squeeze(t) && s == t + "\r\n" + rest;
    }
    forall t | '\r' !in t && v == Squeeze(t) && s == t + "\r\n" + rest ensures ReadValue(s) == Ok(v, rest) {
      ValueRead(t, rest);
    }
  }

  lemma {:induction false} ValueStands(s: string) returns (t: string)
    requires ReadValue(s).Ok?
    ensures '\r' !in t && ReadValue(s).value == Squeeze(t) && s == t + "\r\n" + ReadValue(s).rest
    decreases |s|
  {
    var n := if s[0] == ':' && |s| > 1 && s[1] == ' ' then 2 else 1;
    if s[0] == '\r' {
      t := "";
      assert s == "" + "\r\n" + s[2..];
    } else {
      var u := ValueStands(s[n..]);
      t := s[..n] + u;
      assert s == s[..n] + s[n..];
      Regroup(s[..n], u, "\r\n", ReadValue(s).rest);
      assert t[n..] == u;
      if n == 1 && s[0] == ':' && u != "" { assert u[0] == s[1]; }
    }
  }

  /** A line without a colon is a name with an empty value. */
  lemma {:induction false} NameOnly(done: string, name: string, s: string)
    requires Plain(name)
    ensures ReadField(done, name + "\r\n" + s) == Ok(Field(done + name, ""), s)
    decreases |name|
  {
    var t := name + "\r\n" + s;
    if name == "" {
      assert t[2..] == s && done + name == done;
    } else {
      assert t[1..] == name[1..] + "\r\n" + s && done + [name[0]] + name[1..] == done + name;
      NameOnly(done + [name[0]], name[1..], s);
    }
  }

  /** The space after the colon may be missing. */
  lemma {:induction false} SpaceOptional(done: string, name: string, value: string, s: string)
    requires Plain(name) && done + name != "" && '\r' !in value && (value == "" || value[0] != ' ')
    ensures ReadField(done, name + ":" + (value + "\r\n" + s)) == Ok(Field(done + name, Squeeze(value)), s)
    decreases |name|
  {
    hide ReadValue, Squeeze;
    var tail := value + "\r\n" + s;
    var t := name + ":" + tail;
    if name == "" {
      assert t[1..] == tail && tail[0] != ' ' && done + name == done;
      ValueRead(value, s);
    } else {
      assert t[1..] == name[1..] + ":" + tail && done + [name[0]] + name[1..] == done + name;
      SpaceOptional(done + [name[0]], name[1..], value, s);
    }
  }

  /** A line: a name alone, or a name, a colon, perhaps a space, and a text of which the value is what is kept. */
  predicate Spells(name: string, value: string, colon: string, t: string)
  {
    Plain(name) && '\r' !in t && value == Squeeze(t) &&
    ((colon == "" && t == "") || (name != "" && (colon == ": " || (colon == ":" && (t == "" || t[0] != ' ')))))
  }

  /** A header line is read if and only if it is such a line. */
  lemma FieldExact(s: string, f: Field, rest: string)
    ensures ReadField("", s) == Ok(f, rest) <==>
            exists colon, t :: Spells(f.name, f.value, colon, t) && s == f.name + colon + (t + "\r\n" + rest)
  {
    hide ReadField, Squeeze;
    if ReadField("", s) == Ok(f, rest) {
      var x, colon, t := FieldStands("", s);
      assert "" + x == x;
      assert Spells(f.name, f.value, colon, t);
    }
    forall colon, t | Spells(f.name, f.value, colon, t) && s == f.name + colon + (t + "\r\n" + rest)
      ensures ReadField("", s) == Ok(f, rest)
    {
      FieldSpelled(f, colon, t, rest);
    }
  }

  lemma FieldSpelled(f: Field, colon: string, t: string, rest: string)
    requires Spells(f.name, f.value, colon, t)
    ensures ReadField("", f.name + colon + (t + "\r\n" + rest)) == Ok(f, rest)
  {
    hide ReadField;
    var n := f.name;
    assert "" + n == n;
    if colon == "" {
      assert n + colon + (t + "\r\n" + rest) == n + "\r\n" + rest;
      NameOnly("", n, rest);
    } else if colon == ":" {
      SpaceOptional("", n, t, rest);
    } else {
      FieldRead("", n, t, rest);
      Regroup("", n + ": ", t, "\r\n");
      assert Line(n, t) + rest == n + ": " + (t + "\r\n" + rest);
    }
  }

  lemma {:induction false} FieldStands(done: string, s: string) returns (x: string, colon: string, t: string)
    requires ReadField(done, s).Ok?
    ensures var f := ReadField(done, s).value;
      f.name == done + x && Plain(x) && '\r' !in t && f.value == Squeeze(t) &&
      s == x + colon + (t + "\r\n" + ReadField(done, s).rest)
    ensures (colon == "" && t == "") || (done + x != "" && (colon == ": " || (colon == ":" && (t == "" || t[0] != ' '))))
    decreases |s|
  {
    hide ReadValue, Squeeze;
    var rest := ReadField(done, s).rest;
    if s[0] == '\r' {
      x, colon, t := "", "", "";
      SqueezeNothing();
      assert s == "" + "" + ("" + "\r\n" + s[2..]);
    } else if s[0] == ':' {
      x := "";
      t := ValueStands(AfterColon(s[1..]));
      colon := if |s| > 1 && s[1] == ' ' then ": " else ":";
      assert s == "" + colon + AfterColon(s[1..]);
    } else {
      x, colon, t := FieldStands(done + [s[0]], s[1..]);
      assert s == [s[0]] + s[1..];
      Regroup([s[0]], x, colon, t + "\r\n" + rest);
      Regroup(done, [s[0]], x, "");
      x := [s[0]] + x;
    }
  }

  lemma SqueezeNothing()
    ensures Squeeze("") == ""
  {
  }

  lemma {:induction false} ValueRefused(s: string)
    requires ReadValue(s).Failed?
    ensures ReadValue(s).reason == if '\r' in s then UnexpectedSymbol else EndOfStream
    decreases |s|
  {
    if s != "" && s[0] != '\r' {
      var n := if s[0] == ':' && |s| > 1 && s[1] == ' ' then 2 else 1;
      assert s == s[..n] + s[n..] && '\r' !in s[..n];
      ValueRefused(s[n..]);
    }
  }

  /** Why a header line is not read: it starts with a colon, its line end is broken, or the stream ends before one. */
  lemma {:induction false} FieldRefused(name: string, s: string)
    requires ReadField(name, s).Failed?
    ensures ReadField(name, s).reason ==
            if name == "" && s != "" && s[0] == ':' then EmptyHeader
            else if '\r' in s then UnexpectedSymbol else EndOfStream
    decreases |s|
  {
    hide ReadValue;
    if s != "" && s[0] != '\r' {
      assert s == [s[0]] + s[1..];
      if s[0] != ':' {
        FieldRefused(name + [s[0]], s[1..]);
      } else if name != "" {
        var u := AfterColon(s[1..]);
        ValueRefused(u);
        assert '\r' in s[1..] <==> '\r' in u by { if u != s[1..] { assert s[1..] == " " + u; } }
      }
    }
  }

  /** A body is read if and only if it is what stands there, as long as the header announces. */
  lemma BodyExact(h: Headers, s: string, body: string, rest: string)
    ensures ReadBody(h, s) == Ok(body, rest) <==>
            s == body + rest &&
            if "Content-Length" in h then Unsigned(h["Content-Length"]) == Some(|body|) else body == ""
    ensures ReadBody(h, s) == Failed(BadLength) <==> "Content-Length" in h && Unsigned(h["Content-Length"]) == None
  {
    hide Unsigned;
    if s == body + rest { assert s[..|body|] == body && s[|body|..] == rest; }
  }

  /** A status that is not known is refused, whatever follows. */
  lemma StatusRefused(r: Reply, version: string, status: string, s: string)
    requires ' ' !in version && '\r' !in version && '\r' !in status
    requires status !in {"200 OK", "200 Ok", "404 Not Found", "500 Internal Server Error"}
    ensures ReceiveReply(r, version + " " + (status + "\r\n" + s)) == Failed(UnexpectedSymbol)
  {
    hide ReadWord, ReadLine, ParseStatus, ReceiveHeaders;
    WordExact(version + " " + (status + "\r\n" + s), version, status + "\r\n" + s);
    LineExact(status + "\r\n" + s, status, s);
    StatusWords(status);
  }

  /** A broken line end after a name or a value, or after the last line, is refused. */
  lemma {:induction false} BrokenValue(t: string, c: char, s: string)
    requires '\r' !in t && c != '\n'
    ensures ReadValue(t + "\r" + [c] + s) == Failed(UnexpectedSymbol)
  {
    var u := t + "\r" + [c] + s;
    if t == "" {
    } else {
      assert u[1..] == t[1..] + "\r" + [c] + s;
      BrokenValue(t[1..], c, s);
      if |t| > 1 {
        assert u[2..] == t[2..] + "\r" + [c] + s;
        BrokenValue(t[2..], c, s);
      }
    }
  }

  lemma BrokenEnd(h: Headers, name: string, value: string, c: char, s: string)
    requires name != "" && Plain(name) && '\r' !in value && c != '\n'
    ensures ReadHeaders(h, Line(name, value) + ("\r" + [c] + s)) == Failed(UnexpectedSymbol)
  {
    hide ReadHeaders, Squeeze, Line;
    LineRead(h, name, value, "\r" + [c] + s);
  }

  // ----- numbers -----

  lemma {:induction false} SpacesDropped(w: string, t: string)
    requires (forall i :: 0 <= i < |w| ==> IsSpace(w[i])) && (t == "" || !IsSpace(t[0]))
    ensures DropSpace(w + t) == t
  {
    if w == "" {
      assert w + t == t;
    } else {
      assert (w + t)[1..] == w[1..] + t;
      SpacesDropped(w[1..], t);
    }
  }

  lemma {:induction false} RunStops(d: string, r: string)
    requires AllDigits(d) && (r == "" || !IsDigit(r[0]))
    ensures DigitRun(d + r) == |d|
  {
    if d == "" {
      assert d + r == r;
    } else {
      assert (d + r)[1..] == d[1..] + r;
      RunStops(d[1..], r);
    }
  }

  function Negated(v: nat): nat
    requires v < TWO64
  {
    if v == 0 then 0 else TWO64 - v
  }

  /** The library's reader: spaces, a sign, digits and anything after them; a minus sign negates modulo 2^64. */
  lemma UnsignedMeans(w: string, sign: string, d: string, r: string)
    requires forall i :: 0 <= i < |w| ==> IsSpace(w[i])
    requires sign == "" || sign == "+" || sign == "-"
    requires AllDigits(d) && (r == "" || !IsDigit(r[0]))
    requires d == "" && sign == "" ==> r == "" || (!IsSpace(r[0]) && r[0] != '-' && r[0] != '+')
    ensures Unsigned(w + (sign + (d + r))) ==
            if d == "" || NatValue(d) >= TWO64 then None
            else Some(if sign == "-" then Negated(NatValue(d)) else NatValue(d))
  {
    hide NatValue, DigitRun, DropSpace;
    var u := sign + (d + r);
    assert u == "" || !IsSpace(u[0]);
    SpacesDropped(w, u);
    RunStops(d, r);
    assert sign == "" ==> u == d + r;
    assert sign != "" ==> u[1..] == d + r;
    assert (d + r)[..|d|] == d;
    if d != "" && NatValue(d) < TWO64 { NegatedIs(NatValue(d)); }
  }

  lemma NegatedIs(v: nat)
    requires v < TWO64
    ensures (TWO64 - v) % TWO64 == Negated(v)
  {
    if v == 0 { DivModUnique(1, TWO64, 0); } else { DivModUnique(0, TWO64, TWO64 - v); }
  }
}
