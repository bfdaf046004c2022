/** The HTTP objects and the parser that fills them from a stream, each method proved against the values of Http. */
module HttpStream {
  import opened Http
  import opened Text
  import opened Words

  /** What a reading method gives back, or what it throws. */
  datatype Got<+T> = Got(value: T) | Thrown(error: Error)

  predicate Gave<T(==)>(p: Read<T>, g: Got<T>, rest: string)
  {
    match p case Ok(v, after) => g == Got(v) && rest == after case Failed(e) => g == Thrown(e)
  }

  function After(done: string, r: Read<string>): Read<string>
  {
    match r case Ok(t, rest) => Ok(done + t, rest) case Failed(e) => Failed(e)
  }

  lemma AfterOne(done: string, c: char, r: Read<string>)
    ensures After(done + [c], r) == After(done, AddFront(c, r))
  {
    if r.Ok? { assert done + [c] + r.value == done + ([c] + r.value); }
  }

  lemma AfterNone(r: Read<string>)
    ensures After("", r) == r
  {
    if r.Ok? { assert "" + r.value == r.value; }
  }

  /** A header line whose value was read up to a point. */
  function FieldAfter(name: string, value: string, r: Read<string>): Read<Field>
  {
    match After(value, r) case Ok(v, rest) => Ok(Field(name, v), rest) case Failed(e) => Failed(e)
  }

  /** The line was read, and the empty line too if it follows. */
  predicate DidLine(p: Read<Field>, g: Got<Field>, more: bool, rest: string)
  {
    match p
    case Failed(e) => g == Thrown(e)
    case Ok(f, after) =>
      if !Ends(after) then g == Got(f) && more && rest == after
      else
        match Newline(after, UnexpectedSymbol)
        case Ok(_, end) => g == Got(f) && !more && rest == end
        case Failed(e) => g == Thrown(e)
  }

  class Input {
    var rest: string

    constructor (text: string)
      ensures rest == text
    {
      rest := text;
    }

    method ReadWord() returns (g: Got<string>)
      modifies this
      ensures Gave(Http.ReadWord(old(rest)), g, rest)
    {
      var word := "";
      AfterNone(Http.ReadWord(rest));
      while rest != "" && rest[0] != ' ' && rest[0] != '\r'
        invariant After(word, Http.ReadWord(rest)) == Http.ReadWord(old(rest))
        decreases |rest|
      {
        AfterOne(word, rest[0], Http.ReadWord(rest[1..]));
        word := word + [rest[0]];
        rest := rest[1..];
      }
      if rest == "" {
        return Thrown(EndOfStream);
      }
      assert word + "" == word;
      var c := rest[0];
      rest := rest[1..];
      if c == '\r' {
        if rest == "" || rest[0] != '\n' {
          return Thrown(UnexpectedSymbol);
        }
        rest := rest[1..];
      }
      g := Got(word);
    }

    /** The rest of the status line. */
    method ReadLine() returns (g: Got<string>)
      modifies this
      ensures Gave(Http.ReadLine(old(rest)), g, rest)
    {
      var text := "";
      AfterNone(Http.ReadLine(rest));
      while rest != "" && rest[0] != '\r'
        invariant After(text, Http.ReadLine(rest)) == Http.ReadLine(old(rest))
        decreases |rest|
      {
        AfterOne(text, rest[0], Http.ReadLine(rest[1..]));
        text := text + [rest[0]];
        rest := rest[1..];
      }
      if rest == "" {
        return Thrown(EndOfStream);
      }
      assert text + "" == text;
      rest := rest[1..];
      if rest == "" || rest[0] != '\n' {
        return Thrown(NewlineExpected);
      }
      rest := rest[1..];
      g := Got(text);
    }

    /** The name and the value up to the end of the line, which stays in the stream. */
    method ReadNameAndValue() returns (g: Got<Field>)
      modifies this
      ensures match g
              case Thrown(e) => Http.ReadField("", old(rest)) == Failed(e)
              case Got(f) => Ends(rest) && FieldAtEnd(f, rest) == Http.ReadField("", old(rest))
    {
      var name, value, isName := "", "", true;
      while rest != "" && rest[0] != '\r'
        invariant isName ==> value == "" && Http.ReadField(name, rest) == Http.ReadField("", old(rest))
        invariant !isName ==> FieldAfter(name, value, Http.ReadValue(rest)) == Http.ReadField("", old(rest))
        invariant !isName ==> name != ""
        decreases |rest|
      {
        var c := rest[0];
        rest := rest[1..];
        if c == ':' {
          if rest != "" && rest[0] == ' ' {
            c := ' ';
            rest := rest[1..];
          }
          if name == "" {
            return Thrown(EmptyHeader);
          }
          if isName {
            isName := false;
            AfterNone(Http.ReadValue(rest));
            continue;
          }
        }
        if isName {
          name := name + [c];
        } else {
          AfterOne(value, c, Http.ReadValue(rest));
          value := value + [c];
        }
      }
      if rest == "" {
        return Thrown(EndOfStream);
      }
      g := Got(Field(name, value));
      assert value + "" == value;
    }

    method ReadHeader() returns (g: Got<Field>, more: bool)
      modifies this
      ensures DidLine(Http.ReadField("", old(rest)), g, more, rest)
      ensures g.Got? ==> |rest| < |old(rest)|
    {
      hide Http.ReadField;
      more := false;
      g := ReadNameAndValue();
      if g.Thrown? {
        return;
      }
      rest := rest[1..];
      if rest == "" || rest[0] != '\n' {
        g := Thrown(UnexpectedSymbol);
        return;
      }
      rest := rest[1..];
      more := rest == "" || rest[0] != '\r';
      if !more {
        rest := rest[1..];
        if rest == "" || rest[0] != '\n' {
          g := Thrown(UnexpectedSymbol);
          return;
        }
        rest := rest[1..];
      }
    }

    method ReadHeaders(given: Headers) returns (g: Got<Headers>)
      modifies this
      ensures Gave(Http.ReadHeaders(given, old(rest)), g, rest)
    {
      hide Http.ReadField;
      var headers := given;
      var line, more := ReadHeader();
      while line.Got? && more
        invariant line.Thrown? ==> Http.ReadHeaders(given, old(rest)) == Failed(line.error)
        invariant line.Got? && more ==>
                    Http.ReadHeaders(headers[line.value.name := line.value.value], rest)
                    == Http.ReadHeaders(given, old(rest))
        invariant line.Got? && !more ==>
                    Ok(headers[line.value.name := line.value.value], rest) == Http.ReadHeaders(given, old(rest))
        decreases if line.Got? then |rest| + 1 else 0
      {
        headers := headers[line.value.name := line.value.value];
        line, more := ReadHeader();
      }
      if line.Thrown? {
        return Thrown(line.error);
      }
      g := Got(headers[line.value.name := line.value.value]);
    }

    /** The length is the header's number. */
    method ReadBody(headers: Headers) returns (g: Got<string>)
      modifies this
      ensures Gave(Http.ReadBody(headers, old(rest)), g, rest)
    {
      hide Unsigned;
      var length := 0;
      if LENGTH in headers {
        var n := Unsigned(headers[LENGTH]);
        if n.None? {
          return Thrown(BadLength);
        }
        length := n.value;
      }
      var body, read := "", 0;
      while read < length
        invariant 0 <= read <= length && read <= |old(rest)|
        invariant body == old(rest)[..read] && rest == old(rest)[read..]
      {
        if rest == "" {
          return Thrown(EndOfStream);
        }
        body := body + [rest[0]];
        rest := rest[1..];
        read := read + 1;
      }
      g := Got(body);
    }
  }

  /** What is read when the end of the line is next. */
  function FieldAtEnd(f: Field, s: string): Read<Field>
  {
    match Newline(s, UnexpectedSymbol) case Ok(_, rest) => Ok(f, rest) case Failed(e) => Failed(e)
  }

  lemma LinesStep(out: string, h: Headers, names: seq<string>, i: nat)
    requires Covers(h, names) && i < |names|
    ensures out + Lines(h, names[i..]) == out + Line(names[i], h[names[i]]) + Lines(h, names[i + 1..])
  {
    var rest := names[i..];
    assert rest[0] == names[i] && rest[1..] == names[i + 1..];
  }

  /** The header lines, in the order of the map. */
  method WriteLines(headers: Headers) returns (out: string)
    ensures out == Lines(headers, Walk(headers.Keys))
  {
    hide Lines, Line, Walk;
    var names := Walk(headers.Keys);
    out := "";
    assert names[0..] == names && "" + Lines(headers, names) == Lines(headers, names);
    for i := 0 to |names|
      invariant out + Lines(headers, names[i..]) == Lines(headers, names)
    {
      LinesStep(out, headers, names, i);
      out := out + Line(names[i], headers[names[i]]);
    }
    LinesEmpty(headers);
    assert names[|names|..] == [] && out + "" == out;
  }

  class Response {
    var status: Status
    var headers: Headers
    var body: string

    ghost function Value(): Reply
      reads this
    {
      Reply(status, headers, body)
    }

    constructor ()
      ensures Value() == FreshReply()
    {
      status := Status200;
      headers := map["Server" := "Cryptonote-based HTTP server"];
      body := "";
    }

    method SetStatus(s: Status)
      modifies this
      ensures Value() == Http.SetStatus(old(Value()), s)
      ensures old(Consistent(Value())) ==> Consistent(Value())
    {
      status := s;
      if status != Status200 {
        SetBody(ErrorBody(status));
      }
    }

    method AddHeader(name: string, value: string)
      modifies this
      ensures Value() == Set(old(Value()), DoHeader(name, value))
      ensures old(Consistent(Value())) && name != LENGTH ==> Consistent(Value())
    {
      headers := headers[name := value];
    }

    method SetBody(b: string)
      modifies this
      ensures Value() == Http.SetBody(old(Value()), b)
      ensures old("Server" in headers) && |b| < TWO64 ==> Consistent(Value())
    {
      hide NatText;
      body := b;
      if body != "" {
        headers := headers[LENGTH := NatText(|body|)];
      } else {
        headers := headers - {LENGTH};
      }
    }

    method Print() returns (out: string)
      ensures out == PrintReply(Value())
    {
      hide Lines, Walk;
      var lines := WriteLines(headers);
      out := "HTTP/1.1 " + StatusText(status) + "\r\n" + lines + "\r\n";
      if body != "" {
        out := out + body;
      }
    }
  }

  class Request {
    var verb: string
    var url: string
    var headers: Headers
    var body: string

    ghost function Value(): Message
      reads this
    {
      Message(verb, url, headers, body)
    }

    constructor ()
      ensures Value() == FreshMessage()
    {
      verb, url, headers, body := "", "", map[], "";
    }

    method SetUrl(u: string)
      modifies this
      ensures Value() == SetRequest(old(Value()), DoUrl(u))
    {
      url := u;
    }

    method AddHeader(name: string, value: string)
      modifies this
      ensures Value() == SetRequest(old(Value()), DoRequestHeader(name, value))
      ensures old(LengthAgrees(headers, body)) && name != LENGTH ==> LengthAgrees(headers, body)
    {
      headers := headers[name := value];
    }

    method SetBody(b: string)
      modifies this
      ensures Value() == SetRequest(old(Value()), DoRequestBody(b))
      ensures |b| < TWO64 ==> LengthAgrees(headers, body)
    {
      hide NatText;
      body := b;
      if body != "" {
        headers := headers[LENGTH := NatText(|body|)];
      } else {
        headers := headers - {LENGTH};
      }
    }

    method Print() returns (out: string)
      ensures out == PrintMessage(Value())
    {
      hide Lines, Walk, Line;
      out := "POST " + url + " HTTP/1.1\r\n";
      if "Host" !in headers {
        out := out + Line("Host", "127.0.0.1");
      }
      var lines := WriteLines(headers);
      out := out + lines + "\r\n";
      if body != "" {
        out := out + body;
      }
    }
  }

  /** The object holds what was read, or the error was thrown. */
  ghost predicate Received(p: Read<Reply>, e: Option<Error>, response: Response, rest: string)
    reads response
  {
    match p case Ok(v, after) => e.None? && response.Value() == v && rest == after case Failed(f) => e == Some(f)
  }

  ghost predicate Delivery(p: Read<Message>, e: Option<Error>, request: Request, rest: string)
    reads request
  {
    match p case Ok(v, after) => e.None? && request.Value() == v && rest == after case Failed(f) => e == Some(f)
  }

  method ReceiveResponse(input: Input, response: Response) returns (e: Option<Error>)
    modifies input, response
    ensures Received(ReceiveReply(old(response.Value()), old(input.rest)), e, response, input.rest)
  {
    hide Http.ReadWord, Http.ReadLine, Http.ReceiveHeaders, Http.SetStatus, ParseStatus;
    var version := input.ReadWord();
    if version.Thrown? {
      return Some(version.error);
    }
    var text := input.ReadLine();
    if text.Thrown? {
      return Some(text.error);
    }
    var status := ParseStatus(text.value);
    if status.None? {
      return Some(UnexpectedSymbol);
    }
    response.SetStatus(status.value);
    e := ReceiveFields(input, response);
  }

  /** The headers into the response, then the body that they announce. */
  method ReceiveFields(input: Input, response: Response) returns (e: Option<Error>)
    modifies input, response
    ensures Received(ReceiveHeaders(old(response.Value()), old(input.rest)), e, response, input.rest)
  {
    hide Http.ReadField, Http.ReadHeaders, Http.ReadBody, Http.SetBody;
    e := ReceiveLines(input, response);
    if e.Some? {
      return;
    }
    var body := input.ReadBody(response.headers);
    if body.Thrown? {
      return Some(body.error);
    }
    response.SetBody(body.value);
  }

  method ReceiveLines(input: Input, response: Response) returns (e: Option<Error>)
    modifies input, response
    ensures match Http.ReadHeaders(old(response.headers), old(input.rest))
            case Ok(h, after) =>
              e.None? && response.Value() == old(response.Value()).(headers := h) && input.rest == after
            case Failed(f) => e == Some(f)
  {
    hide Http.ReadField;
    ghost var read := Http.ReadHeaders(response.headers, input.rest);
    var line, more := input.ReadHeader();
    while line.Got? && more
      invariant response.status == old(response.status) && response.body == old(response.body)
      invariant line.Thrown? ==> read == Failed(line.error)
      invariant line.Got? && more ==>
                  Http.ReadHeaders(response.headers[line.value.name := line.value.value], input.rest) == read
      invariant line.Got? && !more ==> Ok(response.headers[line.value.name := line.value.value], input.rest) == read
      decreases if line.Got? then |input.rest| + 1 else 0
    {
      response.AddHeader(line.value.name, line.value.value);
      line, more := input.ReadHeader();
    }
    if line.Thrown? {
      return Some(line.error);
    }
    response.AddHeader(line.value.name, line.value.value);
    e := None;
  }

  method ReceiveRequest(input: Input, request: Request) returns (e: Option<Error>)
    modifies input, request
    ensures Delivery(ReceiveMessage(old(request.Value()), old(input.rest)), e, request, input.rest)
  {
    hide Http.ReadWord, Http.ReadHeaders, Http.ReadBody;
    var verb := input.ReadWord();
    if verb.Thrown? {
      return Some(verb.error);
    }
    request.verb := request.verb + verb.value;
    var url := input.ReadWord();
    if url.Thrown? {
      return Some(url.error);
    }
    request.url := request.url + url.value;
    var version := input.ReadWord();
    if version.Thrown? {
      return Some(version.error);
    }
    var headers := input.ReadHeaders(request.headers);
    if headers.Thrown? {
      return Some(headers.error);
    }
    request.headers := headers.value;
    var body := input.ReadBody(request.headers);
    if body.Thrown? {
      return Some(body.error);
    }
    request.body := request.body + body.value;
    e := None;
  }
}
