/** Printing and parsing of JSON values, src/Common/JsonValue.cpp, without floating-point numbers. */
module Json {
  import opened Text
  import opened Words

  /** A value; an object lists its members in the order of its keys, as the source's map does. */
  datatype Value =
    | Array(items: seq<Value>)
    | Bool(b: bool)
    | Integer(n: int)
    | Nil
    | Object(members: seq<Member>)
    | Str(s: string)

  datatype Member = Member(key: string, value: Value)

  // ----- integers -----

  const INT_MIN: int := -0x8000_0000_0000_0000
  const INT_MAX: int := 0x7FFF_FFFF_FFFF_FFFF

  function IntText(n: int): (t: string)
    ensures |t| > 0
  {
    if n < 0 then "-" + NatText(-n) else NatText(n)
  }

  /** What the library makes of the text: a lone sign is 0, and numbers out of range stick at the limits. */
  function IntValue(t: string): int
    requires t != "" && AllDigits(t[1..]) && (t[0] == '-' || IsDigit(t[0]))
  {
    if t == "-" then 0
    else if t[0] == '-' then Clamp(0 - NatValue(t[1..]))
    else
      assert AllDigits(t);
      Clamp(NatValue(t))
  }

  function Clamp(n: int): (r: int)
    ensures INT_MIN <= r <= INT_MAX
  {
    if n < INT_MIN then INT_MIN else if n > INT_MAX then INT_MAX else n
  }

  // ----- what prints and reads back unchanged -----

  /** Text in the parser's raw form: a quote or a backslash only after a backslash, and no space right after one. */
  predicate Raw(s: string)
  {
    s == "" ||
    if s[0] == '\\' then |s| > 1 && !IsSpace(s[1]) && Raw(s[2..])
    else s[0] != '"' && Raw(s[1..])
  }

  predicate NoSpace(s: string)
  {
    forall k :: 0 <= k < |s| ==> !IsSpace(s[k])
  }

  predicate Sorted(ms: seq<Member>)
  {
    forall i, j :: 0 <= i < j < |ms| ==> Less(ms[i].key, ms[j].key)
  }

  predicate Good(v: Value)
    decreases v, 0
  {
    match v
    case Array(items) => forall k :: 0 <= k < |items| ==> Good(items[k])
    case Integer(n) => INT_MIN <= n <= INT_MAX
    case Object(members) => Sorted(members) && GoodMembers(members)
    case Str(s) => Raw(s)
    case _ => true
  }

  predicate GoodMembers(ms: seq<Member>)
    decreases ms, 1
  {
    forall k :: 0 <= k < |ms| ==> Raw(ms[k].key) && NoSpace(ms[k].key) && Good(ms[k].value)
  }

  // ----- the printer -----

  function Print(v: Value): (t: string)
    decreases v, 0
  {
    match v
    case Array(items) => "[" + PrintItems(items) + "]"
    case Bool(b) => if b then "true" else "false"
    case Integer(n) => IntText(n)
    case Nil => "null"
    case Object(members) => "{" + PrintMembers(members) + "}"
    case Str(s) => "\"" + s + "\""
  }

  function PrintItems(items: seq<Value>): string
    decreases items, 1
  {
    if items == [] then ""
    else if |items| == 1 then Print(items[0])
    else Print(items[0]) + "," + PrintItems(items[1..])
  }

  function PrintMember(m: Member): string
    decreases m, 1
  {
    "\"" + m.key + "\":" + Print(m.value)
  }

  function PrintMembers(ms: seq<Member>): string
    decreases ms, 2
  {
    if ms == [] then ""
    else if |ms| == 1 then PrintMember(ms[0])
    else PrintMember(ms[0]) + "," + PrintMembers(ms[1..])
  }

  // ----- the parser -----

  /** A number with a dot is not part of this model; everything else that fails throws or runs out of input. */
  datatype Reason = Syntax | RealNumber

  type Parsed<+T> = Outcome<T, Reason>

  function SkipSpace(s: string): (r: string)
    ensures |r| <= |s| && (r != "" ==> !IsSpace(r[0]))
  {
    if s != "" && IsSpace(s[0]) then SkipSpace(s[1..]) else s
  }

  /** in >> c */
  function Next(s: string): (r: Parsed<char>)
    ensures r.Ok? ==> |r.rest| < |s| && !IsSpace(r.value)
  {
    var t := SkipSpace(s);
    if t == "" then Failed(Syntax) else Ok(t[0], t[1..])
  }

  function Expect(word: string, v: Value, s: string): (r: Parsed<Value>)
    ensures r.Ok? ==> |r.rest| <= |s|
  {
    if word <= s then Ok(v, s[|word|..]) else Failed(Syntax)
  }

  /** Length of the digits and dots at the front. */
  function NumberRun(s: string): (k: nat)
    ensures k <= |s|
  {
    if s != "" && (IsDigit(s[0]) || s[0] == '.') then 1 + NumberRun(s[1..]) else 0
  }

  /** A character that can start a number and digits and dots after it. */
  predicate NumberText(t: string)
  {
    t != "" && (t[0] == '-' || IsDigit(t[0])) && forall i :: 1 <= i < |t| ==> IsDigit(t[i]) || t[i] == '.'
  }

  function Number(t: string): (r: Outcome<Value, Reason>)
    requires NumberText(t)
  {
    if '.' in t then Failed(RealNumber)
    else if |t| > 1 && (t[0] == '0' || (t[0] == '-' && t[1] == '0')) then Failed(Syntax)
    else Ok(Integer(IntValue(t)), "")
  }

  function ParseNumber(c: char, s: string): (r: Parsed<Value>)
    requires c == '-' || IsDigit(c)
    ensures r.Ok? ==> |r.rest| <= |s|
  {
    RunIsDigits(s);
    var k := NumberRun(s);
    match Number([c] + s[..k])
    case Ok(v, _) => Ok(v, s[k..])
    case Failed(e) => Failed(e)
  }

  lemma {:induction false} RunIsDigits(s: string)
    ensures forall i :: 0 <= i < NumberRun(s) ==> IsDigit(s[i]) || s[i] == '.'
  {
    if s != "" && (IsDigit(s[0]) || s[0] == '.') {
      RunIsDigits(s[1..]);
      assert forall i :: 1 <= i < NumberRun(s) ==> s[i] == s[1..][i - 1];
    }
  }

  function Cons(head: string, r: Parsed<string>): Parsed<string>
  {
    match r case Ok(t, rest) => Ok(head + t, rest) case Failed(e) => Failed(e)
  }

  /** The rest of a string, up to its closing quote; after a backslash spaces are skipped. */
  function ParseString(s: string): (r: Parsed<string>)
    ensures r.Ok? ==> |r.rest| < |s|
    decreases |s|
  {
    if s == "" then Failed(Syntax)
    else if s[0] == '"' then Ok("", s[1..])
    else if s[0] == '\\' then
      match Next(s[1..])
      case Ok(c, rest) => Cons(['\\', c], ParseString(rest))
      case Failed(e) => Failed(e)
    else Cons([s[0]], ParseString(s[1..]))
  }

  /** The rest of a key, read without any spaces. */
  function ParseKey(s: string): (r: Parsed<string>)
    ensures r.Ok? ==> |r.rest| < |s|
    decreases |s|
  {
    match Next(s)
    case Failed(e) => Failed(e)
    case Ok(c, rest) =>
      if c == '"' then Ok("", rest)
      else if c == '\\' then
        match Next(rest)
        case Ok(d, rest2) => Cons(['\\', d], ParseKey(rest2))
        case Failed(e) => Failed(e)
      else Cons([c], ParseKey(rest))
  }

  function Parse(s: string): (r: Parsed<Value>)
    ensures r.Ok? ==> |r.rest| < |s|
    decreases |s|, 0
  {
    match Next(s)
    case Failed(e) => Failed(e)
    case Ok(c, rest) =>
      if c == '[' then ParseArray(rest)
      else if c == 't' then Expect("rue", Bool(true), rest)
      else if c == 'f' then Expect("alse", Bool(false), rest)
      else if c == '-' || IsDigit(c) then ParseNumber(c, rest)
      else if c == 'n' then Expect("ull", Nil, rest)
      else if c == '{' then ParseObject(rest)
      else if c == '"' then
        match ParseString(rest) case Ok(t, rest2) => Ok(Str(t), rest2) case Failed(e) => Failed(e)
      else Failed(Syntax)
  }

  function ParseArray(s: string): (r: Parsed<Value>)
    ensures r.Ok? ==> |r.rest| < |s|
    decreases |s|, 2
  {
    var t := SkipSpace(s);
    if t != "" && t[0] == ']' then Ok(Array([]), t[1..])
    else match ParseItems(t)
      case Ok(items, rest) => Ok(Array(items), rest)
      case Failed(e) => Failed(e)
  }

  /** One item and what follows it. */
  function ParseItems(s: string): (r: Parsed<seq<Value>>)
    ensures r.Ok? ==> |r.rest| < |s|
    decreases |s|, 1
  {
    match Parse(s)
    case Failed(e) => Failed(e)
    case Ok(v, rest) =>
      match Next(rest)
      case Failed(e) => Failed(e)
      case Ok(c, rest2) =>
        if c == ']' then Ok([v], rest2)
        else if c == ',' then
          match ParseItems(rest2)
          case Ok(vs, rest3) => Ok([v] + vs, rest3)
          case Failed(e) => Failed(e)
        else Failed(Syntax)
  }

  function ParseObject(s: string): (r: Parsed<Value>)
    ensures r.Ok? ==> |r.rest| < |s|
    decreases |s|, 2
  {
    match Next(s)
    case Failed(e) => Failed(e)
    case Ok(c, rest) =>
      if c == '}' then Ok(Object([]), rest)
      else match ParseMembers(c, rest)
        case Ok(ms, rest2) => Ok(Object(Build(ms)), rest2)
        case Failed(e) => Failed(e)
  }

  /** The members in the order of the text, from the character that should open a key. */
  function ParseMembers(c: char, s: string): (r: Parsed<seq<Member>>)
    ensures r.Ok? ==> |r.rest| < |s|
    decreases |s|, 1
  {
    if c != '"' then Failed(Syntax)
    else match ParseKey(s)
      case Failed(e) => Failed(e)
      case Ok(key, s1) =>
        match Next(s1)
        case Failed(e) => Failed(e)
        case Ok(colon, s2) =>
          if colon != ':' then Failed(Syntax)
          else match Parse(s2)
            case Failed(e) => Failed(e)
            case Ok(v, s3) => ParseMoreMembers(Member(key, v), s3)
  }

  function ParseMoreMembers(m: Member, s: string): (r: Parsed<seq<Member>>)
    ensures r.Ok? ==> |r.rest| < |s|
    decreases |s|, 2
  {
    match Next(s)
    case Failed(e) => Failed(e)
    case Ok(c, s1) =>
      if c == '}' then Ok([m], s1)
      else if c != ',' then Failed(Syntax)
      else match Next(s1)
        case Failed(e) => Failed(e)
        case Ok(d, s2) =>
          match ParseMembers(d, s2)
          case Ok(ms, s3) => Ok([m] + ms, s3)
          case Failed(e) => Failed(e)
  }

  // ----- the map of an object -----

  /** value[name] = ... : in the place of its key, or over the value that is there. */
  function Insert(ms: seq<Member>, m: Member): seq<Member>
  {
    if ms == [] then [m]
    else if ms[0].key == m.key then [m] + ms[1..]
    else if Less(m.key, ms[0].key) then [m] + ms
    else [ms[0]] + Insert(ms[1..], m)
  }

  function Build(ms: seq<Member>): seq<Member>
  {
    if ms == [] then [] else Insert(Build(ms[..|ms| - 1]), ms[|ms| - 1])
  }

  /** Every member of an insertion was there or is the new one. */
  lemma {:induction false} InsertMembers(ms: seq<Member>, m: Member, x: Member)
    requires x in Insert(ms, m)
    ensures x in ms || x == m
  {
    if ms != [] && ms[0].key != m.key && !Less(m.key, ms[0].key) && x != ms[0] {
      InsertMembers(ms[1..], m, x);
    }
  }

  /** The value that was given to a key last. */
  function LastValue(ms: seq<Member>, key: string): Option<Value>
  {
    if ms == [] then None
    else if ms[|ms| - 1].key == key then Some(ms[|ms| - 1].value)
    else LastValue(ms[..|ms| - 1], key)
  }

  /** An insertion puts the new member in and keeps the members with other keys. */
  lemma {:induction false} InsertMeans(ms: seq<Member>, m: Member, x: Member)
    requires Sorted(ms)
    ensures x in Insert(ms, m) <==> x == m || (x in ms && x.key != m.key)
  {
    if ms == [] {
    } else {
      var first, rest := ms[0], ms[1..];
      assert ms == [first] + rest;
      assert forall y :: y in ms <==> y == first || y in rest;
      if first.key == m.key {
        AfterFirst(ms, x);
      } else if Less(m.key, first.key) {
        LessIrreflexive(m.key);
        if x in ms && x.key == m.key { AfterFirst(ms, x); LessTransitive(m.key, first.key, m.key); }
      } else {
        InsertMeans(rest, m, x);
      }
    }
  }

  lemma AfterFirst(ms: seq<Member>, x: Member)
    requires Sorted(ms) && ms != []
    ensures x in ms[1..] ==> Less(ms[0].key, x.key) && x.key != ms[0].key
  {
    LessIrreflexive(ms[0].key);
  }

  /** The map of an object holds for each key that was given the value that was given last, and nothing else. */
  lemma {:induction false} BuildMeans(ms: seq<Member>, x: Member)
    ensures x in Build(ms) <==> LastValue(ms, x.key) == Some(x.value)
  {
    hide Insert, Less;
    if ms == [] {
    } else {
      var init, m := ms[..|ms| - 1], ms[|ms| - 1];
      BuildSorted(init);
      BuildMeans(init, x);
      InsertMeans(Build(init), m, x);
    }
  }

  /** So does the object that is read, over the members of its text. */
  lemma ObjectMeans(s: string, x: Member)
    requires ParseObject(s).Ok? && Next(s).value != '}'
    ensures var members := ParseMembers(Next(s).value, Next(s).rest);
      members.Ok? && ParseObject(s).value.Object? &&
      (x in ParseObject(s).value.members <==> LastValue(members.value, x.key) == Some(x.value))
  {
    hide ParseMembers, Build, LastValue;
    BuildMeans(ParseMembers(Next(s).value, Next(s).rest).value, x);
  }

  lemma {:induction false} InsertSorted(ms: seq<Member>, m: Member)
    requires Sorted(ms)
    ensures Sorted(Insert(ms, m))
  {
    if ms == [] {
    } else {
      assert Sorted(ms[1..]);
      if ms[0].key == m.key {
      } else if Less(m.key, ms[0].key) {
        forall j | 0 < j < |ms| ensures Less(m.key, ms[j].key) { LessTransitive(m.key, ms[0].key, ms[j].key); }
      } else {
        LessTotal(ms[0].key, m.key);
        InsertSorted(ms[1..], m);
        var rest := Insert(ms[1..], m);
        forall j | 0 <= j < |rest| ensures Less(ms[0].key, rest[j].key) { InsertMembers(ms[1..], m, rest[j]); }
      }
    }
  }

  lemma {:induction false} InsertLast(ms: seq<Member>, m: Member)
    requires forall k :: 0 <= k < |ms| ==> Less(ms[k].key, m.key)
    ensures Insert(ms, m) == ms + [m]
  {
    if ms == [] {
    } else {
      LessIrreflexive(m.key);
      if Less(m.key, ms[0].key) { LessTransitive(m.key, ms[0].key, m.key); }
      InsertLast(ms[1..], m);
    }
  }

  lemma {:induction false} BuildSorted(ms: seq<Member>)
    ensures Sorted(Build(ms))
    ensures Sorted(ms) ==> Build(ms) == ms
    ensures GoodMembers(ms) ==> GoodMembers(Build(ms))
  {
    hide Less, Good, Raw, Insert;
    if ms == [] {
    } else {
      var init, m := ms[..|ms| - 1], ms[|ms| - 1];
      BuildSorted(init);
      InsertSorted(Build(init), m);
      if Sorted(ms) {
        assert Sorted(init);
        InsertLast(init, m);
      }
      if GoodMembers(ms) {
        assert GoodMembers(init);
        forall x | x in Build(ms) ensures Raw(x.key) && NoSpace(x.key) && Good(x.value) {
          InsertMembers(Build(init), m, x);
        }
      }
    }
  }

  // ----- scalars and strings -----

  /** What may follow a number without becoming part of it. */
  predicate Stops(s: string)
  {
    s == "" || !(IsDigit(s[0]) || s[0] == '.')
  }

  lemma NextIs(c: char, s: string)
    requires !IsSpace(c)
    ensures Next([c] + s) == Ok(c, s)
  {
    assert SkipSpace([c] + s) == [c] + s;
  }

  lemma {:induction false} RunOfDigits(t: string, s: string)
    requires AllDigits(t) && Stops(s)
    ensures NumberRun(t + s) == |t|
  {
    if t == "" {
      assert t + s == s;
    } else {
      assert (t + s)[1..] == t[1..] + s;
      RunOfDigits(t[1..], s);
    }
  }

  /** A number without a needless zero in front is read to its end. */
  lemma NumberParsed(c: char, digits: string, s: string)
    requires (c == '-' || IsDigit(c)) && AllDigits(digits) && Stops(s)
    requires digits != "" ==> c != '0' && !(c == '-' && digits[0] == '0')
    ensures ParseNumber(c, digits + s) == Ok(Integer(IntValue([c] + digits)), s)
  {
    hide NumberRun, IntValue;
    RunOfDigits(digits, s);
    assert (digits + s)[..|digits|] == digits && (digits + s)[|digits|..] == s;
  }

  lemma IntTextValue(n: int)
    requires INT_MIN <= n <= INT_MAX
    ensures var t := IntText(n);
      AllDigits(t[1..]) && (t[0] == '-' || IsDigit(t[0])) && IntValue(t) == n &&
      (|t| > 1 ==> t[0] != '0' && !(t[0] == '-' && t[1] == '0'))
  {
    hide NatText, NatValue;
    if n < 0 {
      var t := IntText(n);
      assert t[1..] == NatText(-n);
      NatRoundTrip(-n);
    } else {
      NatRoundTrip(n);
    }
  }

  lemma IntegerRoundTrip(n: int, s: string)
    requires INT_MIN <= n <= INT_MAX && Stops(s)
    ensures Parse(IntText(n) + s) == Ok(Integer(n), s)
  {
    hide IntText, IntValue, ParseNumber, SkipSpace, ParseArray, ParseObject, ParseString;
    var t := IntText(n);
    var c, digits := t[0], t[1..];
    IntTextValue(n);
    assert t == [c] + digits;
    assert t + s == [c] + (digits + s);
    NextIs(c, digits + s);
    NumberParsed(c, digits, s);
  }

  lemma WordRoundTrip(c: char, word: string, v: Value, s: string)
    requires (c == 't' && word == "rue" && v == Bool(true)) || (c == 'f' && word == "alse" && v == Bool(false)) ||
             (c == 'n' && word == "ull" && v == Nil)
    ensures Parse([c] + word + s) == Ok(v, s)
  {
    hide ParseNumber, SkipSpace, ParseArray, ParseObject, ParseString;
    assert [c] + word + s == [c] + (word + s);
    NextIs(c, word + s);
    assert (word + s)[|word|..] == s;
  }

  lemma {:induction false} StringRoundTrip(s: string, rest: string)
    requires Raw(s)
    ensures ParseString(s + "\"" + rest) == Ok(s, rest)
    decreases |s|
  {
    var t := s + "\"" + rest;
    if s == "" {
      assert t[1..] == rest;
    } else if s[0] == '\\' {
      var u := s[2..] + "\"" + rest;
      assert t[1..] == [s[1]] + u;
      NextIs(s[1], u);
      StringRoundTrip(s[2..], rest);
      assert s == ['\\', s[1]] + s[2..];
    } else {
      assert t[1..] == s[1..] + "\"" + rest;
      StringRoundTrip(s[1..], rest);
      assert s == [s[0]] + s[1..];
    }
  }

  lemma {:induction false} KeyRoundTrip(s: string, rest: string)
    requires Raw(s) && NoSpace(s)
    ensures ParseKey(s + "\"" + rest) == Ok(s, rest)
    decreases |s|
  {
    var t := s + "\"" + rest;
    if s == "" {
      assert t == ['"'] + rest;
      NextIs('"', rest);
    } else if s[0] == '\\' {
      var u := s[2..] + "\"" + rest;
      assert t == ['\\'] + ([s[1]] + u);
      NextIs('\\', [s[1]] + u);
      NextIs(s[1], u);
      KeyRoundTrip(s[2..], rest);
      assert s == ['\\', s[1]] + s[2..];
    } else {
      var u := s[1..] + "\"" + rest;
      assert t == [s[0]] + u;
      NextIs(s[0], u);
      KeyRoundTrip(s[1..], rest);
      assert s == [s[0]] + s[1..];
    }
  }

  // ----- printing, then parsing -----

  lemma PrintStarts(v: Value)
    ensures var t := Print(v); t != "" && !IsSpace(t[0]) && t[0] != ']'
  {
  }

  lemma StopsAt(c: char, s: string)
    requires !IsDigit(c) && c != '.'
    ensures Stops([c] + s)
  {
  }

  /** Parsing what was printed gives a good value back and consumes exactly the printed text. */
  lemma {:induction false} GoodPrintParse(v: Value, s: string)
    requires Good(v) && (v.Integer? ==> Stops(s))
    ensures Parse(Print(v) + s) == Ok(v, s)
    decreases v, 0
  {
    hide ParseString, ParseArray, ParseObject, ParseNumber, IntText, Raw, PrintItems, PrintMembers, SkipSpace;
    match v
    case Array(items) =>
      assert Print(v) + s == ['['] + (PrintItems(items) + "]" + s);
      NextIs('[', PrintItems(items) + "]" + s);
      ArrayPrintParse(items, s);
    case Bool(b) =>
      assert Print(v) == if b then ['t'] + "rue" else ['f'] + "alse";
      if b { WordRoundTrip('t', "rue", v, s); } else { WordRoundTrip('f', "alse", v, s); }
    case Integer(n) =>
      IntegerRoundTrip(n, s);
    case Nil =>
      assert Print(v) == ['n'] + "ull";
      WordRoundTrip('n', "ull", v, s);
    case Object(members) =>
      assert Print(v) + s == ['{'] + (PrintMembers(members) + "}" + s);
      NextIs('{', PrintMembers(members) + "}" + s);
      ObjectPrintParse(members, s);
    case Str(str) =>
      assert Print(v) + s == ['"'] + (str + "\"" + s);
      NextIs('"', str + "\"" + s);
      StringRoundTrip(str, s);
  }

  lemma ArrayPrintParse(items: seq<Value>, s: string)
    requires forall k :: 0 <= k < |items| ==> Good(items[k])
    ensures ParseArray(PrintItems(items) + "]" + s) == Ok(Array(items), s)
    decreases items, 2
  {
    hide Parse, Good, Print;
    var t := PrintItems(items) + "]" + s;
    if items == [] {
      assert t == [']'] + s;
      assert t[1..] == s;
    } else {
      PrintStarts(items[0]);
      assert t[0] == Print(items[0])[0];
      assert SkipSpace(t) == t;
      ItemsPrintParse(items, s);
    }
  }

  lemma {:induction false} ItemsPrintParse(items: seq<Value>, s: string)
    requires items != [] && forall k :: 0 <= k < |items| ==> Good(items[k])
    ensures ParseItems(PrintItems(items) + "]" + s) == Ok(items, s)
    decreases items, 1
  {
    hide Parse, Good, Print, SkipSpace;
    var v := items[0];
    if |items| == 1 {
      assert PrintItems(items) + "]" + s == Print(v) + ([']'] + s);
      StopsAt(']', s);
      GoodPrintParse(v, [']'] + s);
      NextIs(']', s);
      assert items == [v];
    } else {
      var rest := PrintItems(items[1..]) + "]" + s;
      assert PrintItems(items) + "]" + s == Print(v) + ([','] + rest);
      StopsAt(',', rest);
      GoodPrintParse(v, [','] + rest);
      NextIs(',', rest);
      ItemsPrintParse(items[1..], s);
      assert items == [v] + items[1..];
    }
  }

  lemma ObjectPrintParse(ms: seq<Member>, s: string)
    requires Sorted(ms) && GoodMembers(ms)
    ensures ParseObject(PrintMembers(ms) + "}" + s) == Ok(Object(ms), s)
    decreases ms, 3
  {
    hide Parse, Good, Print, SkipSpace, Build, Less;
    if ms == [] {
      assert PrintMembers(ms) + "}" + s == ['}'] + s;
      NextIs('}', s);
    } else {
      var tail := MembersTail(ms) + "}" + s;
      MembersStart(ms);
      assert PrintMembers(ms) + "}" + s == ['"'] + tail;
      NextIs('"', tail);
      MembersPrintParse(ms, s);
      BuildSorted(ms);
    }
  }

  /** The printed members without the quote that opens the first key. */
  function MembersTail(ms: seq<Member>): string
    requires ms != []
  {
    ms[0].key + "\":" + Print(ms[0].value) + if |ms| == 1 then "" else "," + PrintMembers(ms[1..])
  }

  lemma MembersStart(ms: seq<Member>)
    requires ms != []
    ensures PrintMembers(ms) == ['"'] + MembersTail(ms)
  {
    hide Print;
  }

  lemma {:induction false} MembersPrintParse(ms: seq<Member>, s: string)
    requires ms != [] && GoodMembers(ms)
    ensures ParseMembers('"', MembersTail(ms) + "}" + s) == Ok(ms, s)
    decreases ms, 2
  {
    hide Parse, Good, Print, SkipSpace, ParseKey, Raw, ParseMoreMembers, PrintMembers;
    var m := ms[0];
    var more := (if |ms| == 1 then "" else "," + PrintMembers(ms[1..])) + "}" + s;
    var value := Print(m.value) + more;
    assert MembersTail(ms) + "}" + s == m.key + "\"" + ([':'] + value);
    KeyRoundTrip(m.key, [':'] + value);
    NextIs(':', value);
    assert Stops(more);
    GoodPrintParse(m.value, more);
    MoreMembersPrintParse(ms, s);
  }

  lemma {:induction false} MoreMembersPrintParse(ms: seq<Member>, s: string)
    requires ms != [] && GoodMembers(ms)
    ensures ParseMoreMembers(ms[0], (if |ms| == 1 then "" else "," + PrintMembers(ms[1..])) + "}" + s) == Ok(ms, s)
    decreases ms, 1
  {
    hide Parse, Good, Print, SkipSpace, ParseKey, Raw, ParseMembers, PrintMembers, MembersTail;
    if |ms| == 1 {
      assert "" + "}" + s == ['}'] + s;
      NextIs('}', s);
      assert ms == [ms[0]];
    } else {
      var rest := ms[1..];
      var tail := MembersTail(rest) + "}" + s;
      MembersStart(rest);
      assert "," + PrintMembers(rest) + "}" + s == [','] + (['"'] + tail);
      NextIs(',', ['"'] + tail);
      NextIs('"', tail);
      MembersPrintParse(rest, s);
      assert ms == [ms[0]] + rest;
    }
  }

  // ----- parsing, then printing -----

  lemma {:induction false} StringIsRaw(s: string)
    requires ParseString(s).Ok?
    ensures Raw(ParseString(s).value)
    decreases |s|
  {
    if s[0] == '"' {
    } else if s[0] == '\\' {
      var n := Next(s[1..]);
      StringIsRaw(n.rest);
      RawEscape(n.value, ParseString(n.rest).value);
    } else {
      StringIsRaw(s[1..]);
      RawChar(s[0], ParseString(s[1..]).value);
    }
  }

  lemma RawEscape(c: char, t: string)
    requires Raw(t) && !IsSpace(c)
    ensures Raw(['\\', c] + t)
  {
    assert (['\\', c] + t)[2..] == t;
  }

  lemma RawChar(c: char, t: string)
    requires Raw(t) && c != '"' && c != '\\'
    ensures Raw([c] + t)
  {
    assert ([c] + t)[1..] == t;
  }

  lemma {:induction false} KeyIsRaw(s: string)
    requires ParseKey(s).Ok?
    ensures Raw(ParseKey(s).value) && NoSpace(ParseKey(s).value)
    decreases |s|
  {
    hide SkipSpace;
    var n := Next(s);
    if n.value == '"' {
    } else if n.value == '\\' {
      var m := Next(n.rest);
      KeyIsRaw(m.rest);
      RawEscape(m.value, ParseKey(m.rest).value);
    } else {
      KeyIsRaw(n.rest);
      RawChar(n.value, ParseKey(n.rest).value);
    }
  }

  /** Whatever the parser accepts is a value that prints and reads back unchanged. */
  lemma {:induction false} ParseGood(s: string)
    requires Parse(s).Ok?
    ensures Good(Parse(s).value)
    decreases |s|, 0
  {
    hide SkipSpace, ParseString, ParseNumber, Raw, ParseArray, ParseObject;
    var n := Next(s);
    if n.value == '[' {
      ArrayGood(n.rest);
    } else if n.value == '-' || IsDigit(n.value) {
      NumberGood(n.value, n.rest);
    } else if n.value == '{' {
      ObjectGood(n.rest);
    } else if n.value == '"' {
      StringIsRaw(n.rest);
    }
  }

  lemma NumberGood(c: char, s: string)
    requires (c == '-' || IsDigit(c)) && ParseNumber(c, s).Ok?
    ensures Good(ParseNumber(c, s).value)
  {
  }

  lemma {:induction false} ArrayGood(s: string)
    requires ParseArray(s).Ok?
    ensures Good(ParseArray(s).value)
    decreases |s|, 2
  {
    hide ParseItems;
    var t := SkipSpace(s);
    if !(t != "" && t[0] == ']') { ItemsGood(t); }
  }

  lemma {:induction false} ItemsGood(s: string)
    requires ParseItems(s).Ok?
    ensures forall k :: 0 <= k < |ParseItems(s).value| ==> Good(ParseItems(s).value[k])
    decreases |s|, 1
  {
    hide Parse, SkipSpace, Good;
    ParseGood(s);
    var n := Next(Parse(s).rest);
    if n.value == ',' { ItemsGood(n.rest); }
  }

  lemma {:induction false} ObjectGood(s: string)
    requires ParseObject(s).Ok?
    ensures Good(ParseObject(s).value)
    decreases |s|, 2
  {
    hide ParseMembers, SkipSpace, Build, Less;
    var n := Next(s);
    if n.value != '}' {
      MembersGood(n.value, n.rest);
      BuildSorted(ParseMembers(n.value, n.rest).value);
    }
  }

  lemma {:induction false} MembersGood(c: char, s: string)
    requires ParseMembers(c, s).Ok?
    ensures GoodMembers(ParseMembers(c, s).value)
    decreases |s|, 1
  {
    hide Parse, SkipSpace, Good, ParseKey, ParseMoreMembers, Raw;
    KeyIsRaw(s);
    var key := ParseKey(s);
    var colon := Next(key.rest);
    ParseGood(colon.rest);
    var v := Parse(colon.rest);
    MoreMembersGood(Member(key.value, v.value), v.rest);
  }

  lemma {:induction false} MoreMembersGood(m: Member, s: string)
    requires ParseMoreMembers(m, s).Ok? && Raw(m.key) && NoSpace(m.key) && Good(m.value)
    ensures GoodMembers(ParseMoreMembers(m, s).value)
    decreases |s|, 2
  {
    hide SkipSpace, Good, ParseMembers, Raw;
    var n := Next(s);
    if n.value == ',' {
      var d := Next(n.rest);
      MembersGood(d.value, d.rest);
    }
  }

  lemma {:induction false} RunGoesOn(t: string, s: string)
    requires AllDigits(t) && !Stops(s)
    ensures NumberRun(t + s) > |t|
  {
    if t == "" {
      assert t + s == s;
    } else {
      assert (t + s)[1..] == t[1..] + s;
      RunGoesOn(t[1..], s);
    }
  }

  /** What would extend a number is taken for a part of it. */
  lemma IntegerGoesOn(n: int, s: string)
    requires INT_MIN <= n <= INT_MAX && !Stops(s)
    ensures Parse(IntText(n) + s) != Ok(Integer(n), s)
  {
    hide NumberRun, IntValue, IntText, SkipSpace, ParseArray, ParseObject, ParseString;
    var t := IntText(n);
    var c, digits := t[0], t[1..];
    IntTextValue(n);
    assert t + s == [c] + (digits + s);
    NextIs(c, digits + s);
    RunGoesOn(digits, s);
  }

  /**
    A value is read back from its text, and what follows is left over, if and only if it is in the parser's raw form
    and, for a number, what follows cannot extend it.  The printer escapes nothing, so other strings and keys break.
   */
  lemma PrintParse(v: Value, s: string)
    ensures Parse(Print(v) + s) == Ok(v, s) <==> Good(v) && (v.Integer? ==> Stops(s))
  {
    hide Parse, Print, Good, IntText;
    if Good(v) && (v.Integer? ==> Stops(s)) {
      GoodPrintParse(v, s);
    } else if Good(v) {
      PrintedInteger(v);
      IntegerGoesOn(v.n, s);
    } else if Parse(Print(v) + s) == Ok(v, s) {
      ParseGood(Print(v) + s);
    }
  }

  lemma PrintedInteger(v: Value)
    requires Good(v) && v.Integer?
    ensures Print(v) == IntText(v.n) && INT_MIN <= v.n <= INT_MAX
  {
  }

  /** A string that holds a quote ends at it, and the rest of its text is left over. */
  lemma QuoteNotKept()
    ensures Parse(Print(Str("\""))) == Ok(Str(""), "\"")
  {
    hide ParseArray, ParseObject, ParseNumber;
    var t := Print(Str("\""));
    assert t == ['"'] + "\"\"";
    NextIs('"', "\"\"");
    assert "\"\""[1..] == "\"";
  }

  /** A key loses its spaces. */
  lemma SpaceNotKept()
    ensures Parse(Print(Object([Member(" ", Nil)]))) == Ok(Object([Member("", Nil)]), "")
  {
    hide ParseArray, ParseNumber, ParseString, Parse, SkipSpace, ParseMembers, ParseObject;
    var key := " \":null}";
    assert PrintMembers([Member(" ", Nil)]) == PrintMember(Member(" ", Nil)) == "\" \":null";
    assert Print(Object([Member(" ", Nil)])) == ['{'] + (['"'] + key);
    SpacedMember();
    ObjectOfMember(key, Member("", Nil));
    BraceParsed(['"'] + key);
  }

  lemma BraceParsed(s: string)
    ensures Parse(['{'] + s) == ParseObject(s)
  {
    hide ParseArray, ParseNumber, ParseString, ParseObject, SkipSpace;
    NextIs('{', s);
  }

  lemma ObjectOfMember(s: string, m: Member)
    requires ParseMembers('"', s) == Ok([m], "")
    ensures ParseObject(['"'] + s) == Ok(Object([m]), "")
  {
    hide ParseMembers, SkipSpace;
    NextIs('"', s);
    BuildStep([], m);
    assert [] + [m] == [m];
  }

  lemma SpacedMember()
    ensures ParseMembers('"', " \":null}") == Ok([Member("", Nil)], "")
  {
    hide ParseArray, ParseNumber, ParseString, ParseObject, SkipSpace, Parse;
    var s := " \":null}";
    SpaceSkipped(s[1..]);
    assert s == [' '] + s[1..] && s[1..] == ['"'] + ":null}" && ":null}" == [':'] + "null}";
    NextIs('"', ":null}");
    NextIs(':', "null}");
    assert "null}" == ['n'] + "ull" + "}";
    WordRoundTrip('n', "ull", Nil, "}");
    assert "}" == ['}'] + "";
    NextIs('}', "");
  }

  lemma SpaceSkipped(s: string)
    ensures Next([' '] + s) == Next(s)
  {
    assert ([' '] + s)[1..] == s;
  }

  /** Printing what was parsed and parsing it again is a fixed point, whatever follows. */
  lemma ParsePrintParse(s: string, rest: string)
    requires Parse(s).Ok? && (Parse(s).value.Integer? ==> Stops(rest))
    ensures Parse(Print(Parse(s).value) + rest) == Ok(Parse(s).value, rest)
  {
    hide Parse, Print, Good;
    ParseGood(s);
    GoodPrintParse(Parse(s).value, rest);
  }

  /** No two values print alike. */
  lemma PrintInjective(v: Value, w: Value)
    requires Good(v) && Good(w) && Print(v) == Print(w)
    ensures v == w
  {
    hide Parse, Print, Good;
    assert Print(v) + "" == Print(w) + "";
    GoodPrintParse(v, "");
    GoodPrintParse(w, "");
  }

  // ----- the stream operators -----

  /** A method that consumed from the stream did what the parser says. */
  predicate Did<T(==)>(p: Parsed<T>, r: Option<T>, rest: string)
  {
    match p case Ok(v, after) => r == Some(v) && rest == after case Failed(_) => r.None?
  }

  function Joined<T>(xs: seq<T>, p: Parsed<seq<T>>): Parsed<seq<T>>
  {
    match p case Ok(ys, rest) => Ok(xs + ys, rest) case Failed(e) => Failed(e)
  }

  lemma JoinedTwice<T>(xs: seq<T>, y: T, p: Parsed<seq<T>>)
    ensures Joined(xs, Joined([y], p)) == Joined(xs + [y], p)
  {
    if p.Ok? { assert xs + ([y] + p.value) == xs + [y] + p.value; }
  }

  /** std::istream, reduced to the characters that are still to come; running out of them is a failure. */
  class Stream {
    var rest: string

    constructor (text: string)
      ensures rest == text
    {
      rest := text;
    }

    method SkipSpaces()
      modifies this
      ensures rest == SkipSpace(old(rest))
    {
      while rest != "" && IsSpace(rest[0])
        invariant SkipSpace(rest) == SkipSpace(old(rest))
        decreases |rest|
      {
        rest := rest[1..];
      }
    }

    /** operator>>(char&) */
    method ReadChar() returns (c: Option<char>)
      modifies this
      ensures Did(Next(old(rest)), c, rest)
    {
      SkipSpaces();
      if rest == "" {
        return None;
      }
      c := Some(rest[0]);
      rest := rest[1..];
    }

    method ReadWord(word: string, v: Value) returns (r: Option<Value>)
      modifies this
      ensures Did(Expect(word, v, old(rest)), r, rest)
    {
      if word <= rest {
        rest := rest[|word|..];
        r := Some(v);
      } else {
        r := None;
      }
    }

    method ReadNumber(c: char) returns (r: Option<Value>)
      requires c == '-' || IsDigit(c)
      modifies this
      ensures Did(ParseNumber(c, old(rest)), r, rest)
    {
      var text := [c];
      ghost var k := 0;
      while rest != "" && (IsDigit(rest[0]) || rest[0] == '.')
        invariant 0 <= k <= |old(rest)| && rest == old(rest)[k..] && text == [c] + old(rest)[..k]
        invariant NumberRun(old(rest)) == k + NumberRun(rest)
        decreases |rest|
      {
        text := text + [rest[0]];
        rest := rest[1..];
        k := k + 1;
      }
      hide NumberRun, IntValue;
      RunIsDigits(old(rest));
      assert NumberText(text) && k == NumberRun(old(rest));
      if '.' in text || (|text| > 1 && (text[0] == '0' || (text[0] == '-' && text[1] == '0'))) {
        return None;
      }
      r := Some(Integer(IntValue(text)));
    }

    method ReadString() returns (r: Option<string>)
      modifies this
      ensures Did(ParseString(old(rest)), r, rest)
    {
      hide Next;
      var value := "";
      ghost var whole := ParseString(rest);
      ConsNothing(whole);
      while rest != ""
        invariant Cons(value, ParseString(rest)) == whole
        decreases |rest|
      {
        var c := rest[0];
        ghost var after := ParseString(rest);
        rest := rest[1..];
        if c == '"' {
          assert value + "" == value;
          return Some(value);
        }
        if c == '\\' {
          var d := ReadChar();
          if d.None? {
            return None;
          }
          ConsTwice(value, ['\\', d.value], ParseString(rest));
          value := value + [c, d.value];
        } else {
          ConsTwice(value, [c], ParseString(rest));
          value := value + [c];
        }
      }
      return None;
    }

    method ReadKey() returns (r: Option<string>)
      modifies this
      ensures Did(ParseKey(old(rest)), r, rest)
    {
      hide Next;
      var name := "";
      ghost var whole := ParseKey(rest);
      ConsNothing(whole);
      while true
        invariant Cons(name, ParseKey(rest)) == whole
        decreases |rest|
      {
        var c := ReadChar();
        if c.None? {
          return None;
        }
        if c.value == '"' {
          assert name + "" == name;
          return Some(name);
        }
        if c.value == '\\' {
          var d := ReadChar();
          if d.None? {
            return None;
          }
          ConsTwice(name, ['\\', d.value], ParseKey(rest));
          name := name + [c.value, d.value];
        } else {
          ConsTwice(name, [c.value], ParseKey(rest));
          name := name + [c.value];
        }
      }
    }

    /** operator>>(JsonValue&) */
    method ReadValue() returns (r: Option<Value>)
      modifies this
      ensures Did(Parse(old(rest)), r, rest)
      decreases |rest|, 0
    {
      hide Next, ParseArray, ParseObject, ParseString, ParseNumber, Expect;
      var next := ReadChar();
      if next.None? {
        return None;
      }
      var c := next.value;
      if c == '[' {
        r := ReadArray();
      } else if c == 't' {
        r := ReadWord("rue", Bool(true));
      } else if c == 'f' {
        r := ReadWord("alse", Bool(false));
      } else if c == '-' || IsDigit(c) {
        r := ReadNumber(c);
      } else if c == 'n' {
        r := ReadWord("ull", Nil);
      } else if c == '{' {
        r := ReadObject();
      } else if c == '"' {
        var text := ReadString();
        r := if text.None? then None else Some(Str(text.value));
      } else {
        r := None;
      }
    }

    method ReadArray() returns (r: Option<Value>)
      modifies this
      ensures Did(ParseArray(old(rest)), r, rest)
      decreases |rest|, 2
    {
      hide Next, Parse;
      SkipSpaces();
      if rest != "" && rest[0] == ']' {
        rest := rest[1..];
        return Some(Array([]));
      }
      var value: seq<Value> := [];
      ghost var whole := ParseItems(rest);
      JoinedNothing(whole);
      while true
        invariant |rest| <= |old(rest)| && Joined(value, ParseItems(rest)) == whole
        decreases |rest|
      {
        var item := ReadValue();
        if item.None? {
          return None;
        }
        var c := ReadChar();
        if c.None? {
          return None;
        }
        ghost var more := ParseItems(rest);
        JoinedTwice(value, item.value, more);
        value := value + [item.value];
        if c.value == ']' {
          break;
        }
        if c.value != ',' {
          return None;
        }
      }
      r := Some(Array(value));
    }

    /** One member: a key, a colon and a value. */
    method ReadMember() returns (m: Option<Member>)
      modifies this
      ensures m.None? ==> ParseMembers('"', old(rest)).Failed?
      ensures m.Some? ==> |rest| < |old(rest)| && ParseMembers('"', old(rest)) == ParseMoreMembers(m.value, rest)
      decreases |rest|, 1
    {
      hide Next, Parse, ParseKey, ParseMoreMembers;
      var name := ReadKey();
      if name.None? {
        return None;
      }
      var colon := ReadChar();
      if colon != Some(':') {
        return None;
      }
      var v := ReadValue();
      m := if v.None? then None else Some(Member(name.value, v.value));
    }

    method ReadObject() returns (r: Option<Value>)
      modifies this
      ensures Did(ParseObject(old(rest)), r, rest)
      decreases |rest|, 2
    {
      hide Next, ParseMembers, Build;
      var c := ReadChar();
      if c.None? {
        return None;
      }
      BuildStep([], Member("", Nil));
      var value: seq<Member> := [];
      if c.value != '}' {
        ghost var whole, seen: seq<Member> := ParseMembers(c.value, rest), [];
        JoinedNothing(whole);
        while true
          invariant c.Some? && |rest| < |old(rest)|
          invariant Joined(seen, ParseMembers(c.value, rest)) == whole && value == Build(seen)
          decreases |rest|
        {
          NotAKey(c.value, rest);
          if c.value != '"' {
            return None;
          }
          var m := ReadMember();
          if m.None? {
            return None;
          }
          MoreMembersShape(m.value, rest);
          BuildStep(seen, m.value);
          value := Insert(value, m.value);
          c := ReadChar();
          if c.None? {
            return None;
          }
          if c.value == '}' {
            seen := seen + [m.value];
            break;
          }
          if c.value != ',' {
            return None;
          }
          c := ReadChar();
          if c.None? {
            return None;
          }
          JoinedTwice(seen, m.value, ParseMembers(c.value, rest));
          seen := seen + [m.value];
        }
      }
      r := Some(Object(value));
    }
  }

  lemma ConsNothing(p: Parsed<string>)
    ensures Cons("", p) == p
  {
    if p.Ok? { assert "" + p.value == p.value; }
  }

  lemma ConsTwice(x: string, y: string, p: Parsed<string>)
    ensures Cons(x, Cons(y, p)) == Cons(x + y, p)
  {
    if p.Ok? { assert x + (y + p.value) == x + y + p.value; }
  }

  lemma JoinedNothing<T>(p: Parsed<seq<T>>)
    ensures Joined([], p) == p
  {
    if p.Ok? { assert [] + p.value == p.value; }
  }

  lemma BuildStep(ms: seq<Member>, m: Member)
    ensures Build([]) == [] && Build(ms + [m]) == Insert(Build(ms), m)
  {
    assert (ms + [m])[..|ms|] == ms;
  }

  lemma NotAKey(c: char, s: string)
    ensures c != '"' ==> ParseMembers(c, s).Failed?
  {
  }

  lemma MoreMembersShape(m: Member, s: string)
    ensures Next(s).Failed? ==> ParseMoreMembers(m, s).Failed?
    ensures Next(s).Ok? && Next(s).value == '}' ==> ParseMoreMembers(m, s) == Ok([m], Next(s).rest)
    ensures Next(s).Ok? && Next(s).value != '}' && Next(s).value != ',' ==> ParseMoreMembers(m, s).Failed?
    ensures Next(s).Ok? && Next(s).value == ',' && Next(Next(s).rest).Failed? ==> ParseMoreMembers(m, s).Failed?
    ensures Next(s).Ok? && Next(s).value == ',' && Next(Next(s).rest).Ok? ==>
              var d := Next(Next(s).rest);
              ParseMoreMembers(m, s) == Joined([m], ParseMembers(d.value, d.rest))
  {
  }

  /** operator<< */
  method Write(v: Value) returns (out: string)
    ensures out == Print(v)
    decreases v, 0
  {
    hide PrintItems, PrintMembers;
    match v
    case Array(items) =>
      var text := WriteItems(items);
      out := "[" + text + "]";
    case Bool(b) => out := if b then "true" else "false";
    case Integer(n) => out := IntText(n);
    case Nil => out := "null";
    case Object(members) =>
      var text := WriteMembers(members);
      out := "{" + text + "}";
    case Str(s) => out := "\"" + s + "\"";
  }

  /** The first item, and the others with a comma in front. */
  method WriteItems(items: seq<Value>) returns (out: string)
    ensures out == PrintItems(items)
    decreases items, 1
  {
    hide Print, PrintItems, PrintRest;
    PrintItemsUnfold(items);
    RestEmpty();
    if |items| == 0 {
      return "";
    }
    out := Write(items[0]);
    for i := 1 to |items|
      invariant out + PrintRest(items[i..]) == PrintItems(items)
    {
      var item := Write(items[i]);
      RestStep(out, items, i);
      out := out + "," + item;
    }
    assert items[|items|..] == [] && out + "" == out;
  }

  /** What is printed after an item. */
  function PrintRest(items: seq<Value>): string
  {
    if items == [] then "" else "," + PrintItems(items)
  }

  lemma PrintItemsUnfold(items: seq<Value>)
    ensures PrintItems(items) == if items == [] then "" else Print(items[0]) + PrintRest(items[1..])
  {
    hide Print;
  }

  method WriteMember(m: Member) returns (out: string)
    ensures out == PrintMember(m)
    decreases m, 1
  {
    hide Print;
    var value := Write(m.value);
    out := "\"" + m.key + "\":" + value;
  }

  method WriteMembers(ms: seq<Member>) returns (out: string)
    ensures out == PrintMembers(ms)
    decreases ms, 1
  {
    hide Print, PrintMember, PrintMembers, PrintRestMembers;
    PrintMembersUnfold(ms);
    RestEmpty();
    if |ms| == 0 {
      return "";
    }
    out := WriteMember(ms[0]);
    for i := 1 to |ms|
      invariant out + PrintRestMembers(ms[i..]) == PrintMembers(ms)
    {
      var member := WriteMember(ms[i]);
      RestMembersStep(out, ms, i);
      out := out + "," + member;
    }
    assert ms[|ms|..] == [] && out + "" == out;
  }

  function PrintRestMembers(ms: seq<Member>): string
  {
    if ms == [] then "" else "," + PrintMembers(ms)
  }

  lemma PrintMembersUnfold(ms: seq<Member>)
    ensures PrintMembers(ms) == if ms == [] then "" else PrintMember(ms[0]) + PrintRestMembers(ms[1..])
  {
    hide Print;
  }

  lemma RestEmpty()
    ensures PrintRest([]) == "" && PrintRestMembers([]) == ""
  {
  }

  lemma RestStep(out: string, items: seq<Value>, i: nat)
    requires i < |items|
    ensures out + PrintRest(items[i..]) == out + "," + Print(items[i]) + PrintRest(items[i + 1..])
  {
    hide Print, PrintItems;
    var rest := items[i..];
    assert rest[0] == items[i] && rest[1..] == items[i + 1..];
    PrintItemsUnfold(rest);
  }

  lemma RestMembersStep(out: string, ms: seq<Member>, i: nat)
    requires i < |ms|
    ensures out + PrintRestMembers(ms[i..]) == out + "," + PrintMember(ms[i]) + PrintRestMembers(ms[i + 1..])
  {
    hide PrintMember, PrintMembers;
    var rest := ms[i..];
    assert rest[0] == ms[i] && rest[1..] == ms[i + 1..];
    PrintMembersUnfold(rest);
  }
}
