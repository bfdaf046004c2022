/** Exactly which texts the JSON reader of src/Common/JsonValue.cpp takes, and what they mean. */
module JsonGrammar {
  import opened Text
  import opened Words
  import opened Json

  // ----- syntax trees, with all their white space -----

  datatype Tree = Tree(space: string, node: Node)

  datatype Node =
    | Word(word: string)
    | Number(number: string)
    | Quoted(text: string)
    | List(items: seq<Item>, inside: string)
    | Record(entries: seq<Entry>, inside: string)

  datatype Item = Item(tree: Tree, after: string)

  datatype Entry = Entry(before: string, key: string, afterKey: string, tree: Tree, after: string)

  predicate Blank(w: string)
  {
    forall i :: 0 <= i < |w| ==> IsSpace(w[i])
  }

  /** The characters between the quotes of a string: a quote only after a backslash and spaces. */
  predicate QuotedText(t: string)
    decreases |t|
  {
    t == "" ||
    if t[0] == '\\' then var r := SkipSpace(t[1..]); r != "" && QuotedText(r[1..])
    else t[0] != '"' && QuotedText(t[1..])
  }

  /** The string that they give: spaces after a backslash are dropped. */
  function StringOf(t: string): string
    requires QuotedText(t)
    decreases |t|
  {
    if t == "" then ""
    else if t[0] == '\\' then var r := SkipSpace(t[1..]); ['\\', r[0]] + StringOf(r[1..])
    else [t[0]] + StringOf(t[1..])
  }

  /** The characters between the quotes of a key. */
  predicate KeyText(t: string)
    decreases |t|
  {
    var r := SkipSpace(t);
    r == "" ||
    if r[0] == '\\' then var q := SkipSpace(r[1..]); q != "" && KeyText(q[1..])
    else r[0] != '"' && KeyText(r[1..])
  }

  /** The text without its spaces. */
  function Solid(t: string): string
  {
    if t == "" then "" else (if IsSpace(t[0]) then "" else [t[0]]) + Solid(t[1..])
  }

  /** An integer: no dot, and no zero in front. */
  predicate IntegerText(t: string)
  {
    NumberText(t) && '.' !in t && !(|t| > 1 && (t[0] == '0' || (t[0] == '-' && t[1] == '0')))
  }

  predicate Well(t: Tree)
    decreases t, 1
  {
    Blank(t.space) && WellNode(t.node)
  }

  predicate WellNode(n: Node)
    decreases n, 0
  {
    match n
    case Word(w) => w == "true" || w == "false" || w == "null"
    case Number(t) => IntegerText(t)
    case Quoted(t) => QuotedText(t)
    case List(items, w) => Blank(w) && WellItems(items)
    case Record(entries, w) => Blank(w) && WellEntries(entries)
  }

  predicate WellItems(items: seq<Item>)
    decreases items, 2
  {
    forall i :: 0 <= i < |items| ==> Blank(items[i].after) && Well(items[i].tree)
  }

  predicate WellEntries(es: seq<Entry>)
    decreases es, 2
  {
    forall i :: 0 <= i < |es| ==>
      Blank(es[i].before) && KeyText(es[i].key) && Blank(es[i].afterKey) && Well(es[i].tree) && Blank(es[i].after)
  }

  // ----- the text of a tree with k behind it -----

  function TreeThen(t: Tree, k: string): string
    decreases t, 1
  {
    t.space + NodeThen(t.node, k)
  }

  function NodeThen(n: Node, k: string): string
    decreases n, 0
  {
    match n
    case Word(w) => w + k
    case Number(t) => t + k
    case Quoted(t) => "\"" + (t + ("\"" + k))
    case List(items, w) => "[" + if items == [] then w + ("]" + k) else ItemsThen(items, k)
    case Record(entries, w) => "{" + if entries == [] then w + ("}" + k) else EntriesThen(entries, k)
  }

  function ItemsThen(items: seq<Item>, k: string): string
    requires items != []
    decreases items, 2
  {
    TreeThen(items[0].tree, ItemTail(items, k))
  }

  /** From behind the first item on. */
  function ItemTail(items: seq<Item>, k: string): string
    requires items != []
    decreases items, 1
  {
    items[0].after + if |items| == 1 then "]" + k else "," + ItemsThen(items[1..], k)
  }

  function EntriesThen(es: seq<Entry>, k: string): string
    requires es != []
    decreases es, 2
  {
    es[0].before + ("\"" + KeyThen(es, k))
  }

  /** From the key of the first entry on. */
  function KeyThen(es: seq<Entry>, k: string): string
    requires es != []
    decreases es, 1
  {
    es[0].key + ("\"" + (es[0].afterKey + (":" + TreeThen(es[0].tree, EntryTail(es, k)))))
  }

  /** From behind the value of the first entry on. */
  function EntryTail(es: seq<Entry>, k: string): string
    requires es != []
    decreases es, 0
  {
    es[0].after + if |es| == 1 then "}" + k else "," + EntriesThen(es[1..], k)
  }

  // ----- the value of a tree -----

  function Val(t: Tree): Value
    requires Well(t)
    decreases t, 1
  {
    NodeVal(t.node)
  }

  function NodeVal(n: Node): Value
    requires WellNode(n)
    decreases n, 0
  {
    match n
    case Word(w) => if w == "true" then Bool(true) else if w == "false" then Bool(false) else Nil
    case Number(t) => Integer(IntValue(t))
    case Quoted(t) => Str(StringOf(t))
    case List(items, _) => Array(Vals(items))
    case Record(entries, _) => Object(Build(Members(entries)))
  }

  function Vals(items: seq<Item>): seq<Value>
    requires WellItems(items)
    decreases items, 2
  {
    if items == [] then [] else [Val(items[0].tree)] + Vals(items[1..])
  }

  function Members(es: seq<Entry>): seq<Member>
    requires WellEntries(es)
    decreases es, 2
  {
    if es == [] then [] else [Member(Solid(es[0].key), Val(es[0].tree))] + Members(es[1..])
  }

  // ----- spaces, strings and keys -----

  lemma {:induction false} BlankSkipped(w: string, s: string)
    requires Blank(w)
    ensures SkipSpace(w + s) == SkipSpace(s)
  {
    if w == "" {
      assert w + s == s;
    } else {
      assert (w + s)[1..] == w[1..] + s;
      BlankSkipped(w[1..], s);
    }
  }

  lemma NextAfter(w: string, c: char, s: string)
    requires Blank(w) && !IsSpace(c)
    ensures Next(w + ([c] + s)) == Ok(c, s)
  {
    BlankSkipped(w, [c] + s);
    NextIs(c, s);
  }

  lemma {:induction false} Leading(s: string) returns (w: string)
    ensures Blank(w) && s == w + SkipSpace(s)
  {
    if s != "" && IsSpace(s[0]) {
      w := Leading(s[1..]);
      assert s == [s[0]] + s[1..] && [s[0]] + (w + SkipSpace(s)) == [s[0]] + w + SkipSpace(s);
      w := [s[0]] + w;
    } else {
      w := "";
    }
  }

  lemma NextStands(s: string) returns (w: string)
    requires Next(s).Ok?
    ensures Blank(w) && s == w + ([Next(s).value] + Next(s).rest)
  {
    w := Leading(s);
    var t := SkipSpace(s);
    assert t == [t[0]] + t[1..];
  }

  /** Spaces at the front of a text with more behind it are those of the whole. */
  lemma {:induction false} SkipFirst(t: string, s: string)
    requires SkipSpace(t) != ""
    ensures SkipSpace(t + s) == SkipSpace(t) + s
  {
    if IsSpace(t[0]) {
      assert (t + s)[1..] == t[1..] + s;
      SkipFirst(t[1..], s);
    }
  }

  lemma {:induction false} StringRead(t: string, rest: string)
    requires QuotedText(t)
    ensures ParseString(t + ("\"" + rest)) == Ok(StringOf(t), rest)
    decreases |t|
  {
    hide SkipSpace;
    var s := t + ("\"" + rest);
    if t == "" {
      assert s[1..] == rest;
    } else if t[0] == '\\' {
      var r := SkipSpace(t[1..]);
      assert s[1..] == t[1..] + ("\"" + rest);
      SkipFirst(t[1..], "\"" + rest);
      assert (r + ("\"" + rest))[1..] == r[1..] + ("\"" + rest);
      StringRead(r[1..], rest);
    } else {
      assert s[1..] == t[1..] + ("\"" + rest);
      StringRead(t[1..], rest);
    }
  }

  lemma {:induction false} StringStands(s: string) returns (t: string)
    requires ParseString(s).Ok?
    ensures QuotedText(t) && StringOf(t) == ParseString(s).value && s == t + ("\"" + ParseString(s).rest)
    decreases |s|
  {
    hide SkipSpace, QuotedText, StringOf;
    var tail := "\"" + ParseString(s).rest;
    if s[0] == '"' {
      t := "";
      QuotedNothing();
      assert s == "" + ("\"" + s[1..]);
    } else if s[0] == '\\' {
      var n := Next(s[1..]);
      var u := StringStands(n.rest);
      var w := NextStands(s[1..]);
      t := "\\" + (w + ([n.value] + u));
      QuotedEscape(w, n.value, u);
      EscapeGroups(w, n.value, u, tail);
      assert s == "\\" + s[1..];
    } else {
      var u := StringStands(s[1..]);
      t := [s[0]] + u;
      QuotedChar(s[0], u);
      assert s == [s[0]] + s[1..];
      Groups([s[0]], u, tail);
    }
  }

  lemma Groups(a: string, b: string, c: string)
    ensures a + (b + c) == a + b + c
  {
  }

  lemma EscapeGroups(w: string, c: char, u: string, tail: string)
    ensures "\\" + (w + ([c] + (u + tail))) == "\\" + (w + ([c] + u)) + tail
  {
    Groups([c], u, tail);
    Groups(w, [c] + u, tail);
    Groups("\\", w + ([c] + u), tail);
  }

  lemma QuotedNothing()
    ensures QuotedText("") && StringOf("") == ""
  {
  }

  lemma QuotedChar(c: char, u: string)
    requires c != '"' && c != '\\' && QuotedText(u)
    ensures QuotedText([c] + u) && StringOf([c] + u) == [c] + StringOf(u)
  {
    hide SkipSpace;
    assert ([c] + u)[1..] == u;
  }

  lemma QuotedEscape(w: string, c: char, u: string)
    requires Blank(w) && !IsSpace(c) && QuotedText(u)
    ensures var t := "\\" + (w + ([c] + u)); QuotedText(t) && StringOf(t) == ['\\', c] + StringOf(u)
  {
    var v := w + ([c] + u);
    BlankSkipped(w, [c] + u);
    SolidStart(c, u);
    hide SkipSpace;
    assert ("\\" + v)[1..] == v && ([c] + u)[1..] == u;
  }

  lemma SolidStart(c: char, s: string)
    requires !IsSpace(c)
    ensures SkipSpace([c] + s) == [c] + s
  {
  }

  lemma {:induction false} SolidSkips(t: string)
    ensures Solid(t) == Solid(SkipSpace(t))
  {
    if t != "" && IsSpace(t[0]) { SolidSkips(t[1..]); }
  }

  lemma {:induction false} KeyRead(t: string, rest: string)
    requires KeyText(t)
    ensures ParseKey(t + ("\"" + rest)) == Ok(Solid(t), rest)
    decreases |t|
  {
    hide SkipSpace;
    var tail := "\"" + rest;
    var r := SkipSpace(t);
    SolidSkips(t);
    if r == "" {
      var w := Leading(t);
      assert w + "" == w && t == w;
      NextAfter(t, '"', rest);
    } else {
      SkipFirst(t, tail);
      assert (r + tail)[1..] == r[1..] + tail;
      if r[0] == '\\' {
        var q := SkipSpace(r[1..]);
        SolidSkips(r[1..]);
        SkipFirst(r[1..], tail);
        assert (q + tail)[1..] == q[1..] + tail;
        KeyRead(q[1..], rest);
        assert Solid(r) == ['\\', q[0]] + Solid(q[1..]);
      } else {
        KeyRead(r[1..], rest);
      }
    }
  }

  lemma {:induction false} KeyStands(s: string) returns (t: string)
    requires ParseKey(s).Ok?
    ensures KeyText(t) && Solid(t) == ParseKey(s).value && s == t + ("\"" + ParseKey(s).rest)
    decreases |s|
  {
    hide SkipSpace, KeyText, Solid;
    var tail := "\"" + ParseKey(s).rest;
    var w := NextStands(s);
    var n := Next(s);
    if n.value == '"' {
      t := w;
      BlankKey(w);
    } else if n.value == '\\' {
      var m := Next(n.rest);
      var u := KeyStands(m.rest);
      var x := NextStands(n.rest);
      t := w + ("\\" + (x + ([m.value] + u)));
      EscapedKey(w, x, m.value, u);
      EscapeGroups(x, m.value, u, tail);
      Groups(w, "\\" + (x + ([m.value] + u)), tail);
    } else {
      var u := KeyStands(n.rest);
      t := w + ([n.value] + u);
      PlainKey(w, n.value, u);
      Groups([n.value], u, tail);
      Groups(w, [n.value] + u, tail);
    }
  }

  lemma {:induction false} BlankKey(w: string)
    requires Blank(w)
    ensures KeyText(w) && Solid(w) == "" && SkipSpace(w) == ""
  {
    if w == "" {
    } else {
      BlankKey(w[1..]);
    }
  }

  lemma PlainKey(w: string, c: char, u: string)
    requires Blank(w) && !IsSpace(c) && c != '"' && c != '\\' && KeyText(u)
    ensures KeyText(w + ([c] + u)) && Solid(w + ([c] + u)) == [c] + Solid(u)
  {
    var t := w + ([c] + u);
    BlankSkipped(w, [c] + u);
    SolidStart(c, u);
    SolidSkips(t);
    hide SkipSpace;
    assert ([c] + u)[1..] == u;
  }

  lemma EscapedKey(w: string, x: string, c: char, u: string)
    requires Blank(w) && Blank(x) && !IsSpace(c) && KeyText(u)
    ensures var t := w + ("\\" + (x + ([c] + u))); KeyText(t) && Solid(t) == ['\\', c] + Solid(u)
  {
    var v := x + ([c] + u);
    var t := w + ("\\" + v);
    BlankSkipped(w, "\\" + v);
    SolidStart('\\', v);
    BlankSkipped(x, [c] + u);
    SolidStart(c, u);
    SolidSkips(t);
    SolidSkips(v);
    hide SkipSpace;
    assert ("\\" + v)[1..] == v && ([c] + u)[1..] == u;
    assert Solid(v) == [c] + Solid(u);
  }

  // ----- numbers -----

  lemma {:induction false} RunExact(t: string, s: string)
    requires (forall i :: 0 <= i < |t| ==> IsDigit(t[i]) || t[i] == '.') && Stops(s)
    ensures NumberRun(t + s) == |t|
  {
    if t == "" {
      assert t + s == s;
    } else {
      assert (t + s)[1..] == t[1..] + s;
      RunExact(t[1..], s);
    }
  }

  lemma {:induction false} RunEnds(s: string)
    ensures Stops(s[NumberRun(s)..])
  {
    if s != "" && (IsDigit(s[0]) || s[0] == '.') {
      RunEnds(s[1..]);
      assert s[NumberRun(s)..] == s[1..][NumberRun(s[1..])..];
    }
  }

  lemma NumberRead(t: string, rest: string)
    requires IntegerText(t) && Stops(rest)
    ensures ParseNumber(t[0], t[1..] + rest) == Ok(Integer(IntValue(t)), rest)
  {
    hide NumberRun, IntValue;
    var d := t[1..];
    RunExact(d, rest);
    assert (d + rest)[..|d|] == d && (d + rest)[|d|..] == rest && [t[0]] + d == t;
  }

  lemma NumberStands(c: char, s: string) returns (t: string)
    requires (c == '-' || IsDigit(c)) && ParseNumber(c, s).Ok?
    ensures IntegerText(t) && [c] + s == t + ParseNumber(c, s).rest
    ensures ParseNumber(c, s).value == Integer(IntValue(t)) && Stops(ParseNumber(c, s).rest)
  {
    hide NumberRun, IntValue;
    RunIsDigits(s);
    RunEnds(s);
    t := [c] + s[..NumberRun(s)];
    assert [c] + s == t + s[NumberRun(s)..];
  }

  // ----- a tree is read as its value -----

  lemma ParseSkips(s: string)
    ensures Parse(SkipSpace(s)) == Parse(s) && ParseItems(SkipSpace(s)) == ParseItems(s)
  {
    assert SkipSpace(SkipSpace(s)) == SkipSpace(s);
    hide SkipSpace, ParseArray, ParseObject, ParseNumber, ParseString;
    assert Next(SkipSpace(s)) == Next(s);
    assert Parse(SkipSpace(s)) == Parse(s);
    hide Parse;
  }

  lemma StopsSoon(w: string, c: char, s: string)
    requires Blank(w) && !IsDigit(c) && c != '.'
    ensures Stops(w + ([c] + s))
  {
  }

  /** The first character of a tree after its spaces opens a value. */
  lemma TreeStarts(t: Tree, k: string)
    requires Well(t)
    ensures var u := SkipSpace(TreeThen(t, k)); u == NodeThen(t.node, k) && u != "" && u[0] != ']'
  {
    hide Well, WellNode, NodeThen;
    WellParts(t);
    NodeStarts(t.node, k);
    BlankSkipped(t.space, NodeThen(t.node, k));
    var u := NodeThen(t.node, k);
    assert u == [u[0]] + u[1..];
    SolidStart(u[0], u[1..]);
  }

  lemma WellParts(t: Tree)
    requires Well(t)
    ensures Blank(t.space) && WellNode(t.node)
  {
  }

  lemma NodeStarts(n: Node, k: string)
    requires WellNode(n)
    ensures var u := NodeThen(n, k); u != "" && u[0] != ']' && !IsSpace(u[0])
  {
    hide QuotedText, WellItems, WellEntries, ItemsThen, EntriesThen;
  }

  lemma WellFirst(items: seq<Item>)
    requires WellItems(items) && items != []
    ensures Blank(items[0].after) && Well(items[0].tree) && WellItems(items[1..])
  {
    hide Well, Blank;
  }

  lemma WellFirstEntry(es: seq<Entry>)
    requires WellEntries(es) && es != []
    ensures var e := es[0];
      Blank(e.before) && KeyText(e.key) && Blank(e.afterKey) && Well(e.tree) && Blank(e.after) && WellEntries(es[1..])
  {
    hide Well, Blank, KeyText;
  }

  lemma BracketParsed(s: string)
    ensures Parse("[" + s) == ParseArray(s)
  {
    hide ParseArray, ParseNumber, ParseString, ParseObject, SkipSpace;
    NextIs('[', s);
  }

  lemma QuoteParsed(t: string, k: string)
    requires QuotedText(t)
    ensures Parse("\"" + (t + ("\"" + k))) == Ok(Str(StringOf(t)), k)
  {
    hide ParseArray, ParseNumber, ParseString, ParseObject, SkipSpace, StringOf;
    NextIs('"', t + ("\"" + k));
    StringRead(t, k);
  }

  lemma DigitsParsed(t: string, k: string)
    requires IntegerText(t) && Stops(k)
    ensures Parse(t + k) == Ok(Integer(IntValue(t)), k)
  {
    hide ParseArray, ParseNumber, ParseString, ParseObject, SkipSpace, IntValue;
    NumberRead(t, k);
    assert t + k == [t[0]] + (t[1..] + k);
    NextIs(t[0], t[1..] + k);
  }

  lemma WordParsed(w: string, k: string)
    requires w == "true" || w == "false" || w == "null"
    ensures Parse(w + k) == Ok(NodeVal(Word(w)), k)
  {
    hide Parse;
    assert w == [w[0]] + w[1..];
    WordRoundTrip(w[0], w[1..], NodeVal(Word(w)), k);
  }

  lemma {:induction false} TreeRead(t: Tree, k: string)
    requires Well(t) && (t.node.Number? ==> Stops(k))
    ensures Parse(TreeThen(t, k)) == Ok(Val(t), k)
    decreases t, 1
  {
    WellParts(t);
    NodeRead(t.node, k);
    TreeStarts(t, k);
    ParseSkips(TreeThen(t, k));
  }

  lemma {:induction false} NodeRead(n: Node, k: string)
    requires WellNode(n) && (n.Number? ==> Stops(k))
    ensures Parse(NodeThen(n, k)) == Ok(NodeVal(n), k)
    decreases n, 0
  {
    hide Parse, ParseArray, ParseObject, SkipSpace, ItemsThen, EntriesThen, QuotedText, StringOf, WellItems, WellEntries;
    match n
    case Word(w) => WordParsed(w, k);
    case Number(t) => DigitsParsed(t, k);
    case Quoted(t) => QuoteParsed(t, k);
    case List(items, w) =>
      if items == [] {
        EmptyList(w, k);
        BracketParsed(w + ("]" + k));
      } else {
        ListRead(items, k);
        BracketParsed(ItemsThen(items, k));
      }
    case Record(es, w) =>
      if es == [] {
        EmptyRecord(w, k);
        BraceParsed(w + ("}" + k));
        assert Build([]) == [];
      } else {
        RecordRead(es, k);
        BraceParsed(EntriesThen(es, k));
      }
  }

  lemma EmptyList(w: string, k: string)
    requires Blank(w)
    ensures ParseArray(w + ("]" + k)) == Ok(Array([]), k)
  {
    BlankSkipped(w, "]" + k);
    SolidStart(']', k);
    hide SkipSpace, ParseItems;
  }

  lemma EmptyRecord(w: string, k: string)
    requires Blank(w)
    ensures ParseObject(w + ("}" + k)) == Ok(Object([]), k)
  {
    hide SkipSpace, ParseMembers;
    NextAfter(w, '}', k);
  }

  lemma {:induction false} ListRead(items: seq<Item>, k: string)
    requires WellItems(items) && items != []
    ensures ParseArray(ItemsThen(items, k)) == Ok(Array(Vals(items)), k)
    decreases items, 3
  {
    hide SkipSpace, ParseItems, Well, WellItems, Vals, NodeThen, TreeThen;
    ItemsRead(items, k);
    WellFirst(items);
    TreeStarts(items[0].tree, ItemTail(items, k));
    ParseSkips(ItemsThen(items, k));
  }

  lemma {:induction false} ItemsRead(items: seq<Item>, k: string)
    requires WellItems(items) && items != []
    ensures ParseItems(ItemsThen(items, k)) == Ok(Vals(items), k)
    decreases items, 2
  {
    hide SkipSpace, Parse, Well, WellItems, NodeThen, TreeThen, Val;
    WellFirst(items);
    var i := items[0];
    var more := if |items| == 1 then k else ItemsThen(items[1..], k);
    var c := if |items| == 1 then ']' else ',';
    StopsSoon(i.after, c, more);
    NextAfter(i.after, c, more);
    TreeRead(i.tree, ItemTail(items, k));
    if |items| == 1 {
      assert items[1..] == [] && [Val(i.tree)] + [] == [Val(i.tree)];
    } else {
      ItemsRead(items[1..], k);
    }
  }

  lemma {:induction false} RecordRead(es: seq<Entry>, k: string)
    requires WellEntries(es) && es != []
    ensures ParseObject(EntriesThen(es, k)) == Ok(Object(Build(Members(es))), k)
    decreases es, 3
  {
    hide SkipSpace, ParseMembers, Well, WellEntries, Members, KeyThen, Build;
    WellFirstEntry(es);
    NextAfter(es[0].before, '"', KeyThen(es, k));
    EntriesRead(es, k);
  }

  lemma {:induction false} EntriesRead(es: seq<Entry>, k: string)
    requires WellEntries(es) && es != []
    ensures ParseMembers('"', KeyThen(es, k)) == Ok(Members(es), k)
    decreases es, 2
  {
    hide SkipSpace, Parse, ParseKey, Well, WellEntries, TreeThen, Val, KeyText, Solid, EntryTail, ParseMoreMembers;
    WellFirstEntry(es);
    var e := es[0];
    var tail := EntryTail(es, k);
    KeyRead(e.key, e.afterKey + (":" + TreeThen(e.tree, tail)));
    NextAfter(e.afterKey, ':', TreeThen(e.tree, tail));
    EntryStops(es, k);
    TreeRead(e.tree, tail);
    MoreRead(es, k);
  }

  lemma EntryStops(es: seq<Entry>, k: string)
    requires es != [] && Blank(es[0].after)
    ensures Stops(EntryTail(es, k))
  {
    hide EntriesThen;
    if |es| == 1 {
      StopsSoon(es[0].after, '}', k);
    } else {
      StopsSoon(es[0].after, ',', EntriesThen(es[1..], k));
    }
  }

  lemma {:induction false} MoreRead(es: seq<Entry>, k: string)
    requires WellEntries(es) && es != []
    ensures ParseMoreMembers(Member(Solid(es[0].key), Val(es[0].tree)), EntryTail(es, k)) == Ok(Members(es), k)
    decreases es, 1
  {
    hide SkipSpace, ParseMembers, Well, WellEntries, Val, Solid, KeyThen;
    WellFirstEntry(es);
    var after := es[0].after;
    if |es| == 1 {
      NextAfter(after, '}', k);
      var m := Member(Solid(es[0].key), Val(es[0].tree));
      assert es[1..] == [] && [m] + [] == [m];
    } else {
      var more := es[1..];
      NextAfter(after, ',', EntriesThen(more, k));
      WellFirstEntry(more);
      NextAfter(more[0].before, '"', KeyThen(more, k));
      EntriesRead(more, k);
    }
  }

  // ----- whatever is read is the text of a tree -----

  lemma {:induction false} TreeStands(s: string) returns (t: Tree)
    requires Parse(s).Ok?
    ensures Well(t) && s == TreeThen(t, Parse(s).rest) && Val(t) == Parse(s).value
    ensures t.node.Number? ==> Stops(Parse(s).rest)
    decreases |s|, 0
  {
    hide WellNode, NodeThen, NodeVal, SkipSpace, Parse;
    NextOfParse(s);
    var w := NextStands(s);
    var n := Next(s);
    var node := NodeStands(n.value, n.rest);
    t := Tree(w, node);
  }

  /** What is read when c has been taken. */
  function After(c: char, rest: string): Parsed<Value>
  {
    if c == '[' then ParseArray(rest)
    else if c == 't' then Expect("rue", Bool(true), rest)
    else if c == 'f' then Expect("alse", Bool(false), rest)
    else if c == '-' || IsDigit(c) then ParseNumber(c, rest)
    else if c == 'n' then Expect("ull", Nil, rest)
    else if c == '{' then ParseObject(rest)
    else if c == '"' then
      match ParseString(rest) case Ok(t, rest2) => Ok(Str(t), rest2) case Failed(e) => Failed(e)
    else Failed(Syntax)
  }

  lemma NextOfParse(s: string)
    requires Parse(s).Ok?
    ensures Next(s).Ok? && Parse(s) == After(Next(s).value, Next(s).rest)
  {
    hide SkipSpace, ParseArray, ParseObject, ParseNumber, ParseString;
  }

  lemma {:induction false} NodeStands(c: char, s: string) returns (n: Node)
    requires After(c, s).Ok?
    ensures WellNode(n) && [c] + s == NodeThen(n, After(c, s).rest) && NodeVal(n) == After(c, s).value
    ensures n.Number? ==> Stops(After(c, s).rest)
    decreases |s|, 3
  {
    hide ParseArray, ParseObject, ParseNumber, ParseString, IntegerText, QuotedText, StringOf, IntValue;
    if c == '[' {
      n := ListStands(s);
    } else if c == '-' || IsDigit(c) {
      var t := NumberStands(c, s);
      n := Number(t);
    } else if c == '{' {
      n := RecordStands(s);
    } else if c == '"' {
      var t := StringStands(s);
      n := Quoted(t);
    } else {
      var word := if c == 't' then "rue" else if c == 'f' then "alse" else "ull";
      n := Word([c] + word);
      assert s == word + s[|word|..];
      Groups([c], word, s[|word|..]);
    }
  }

  lemma {:induction false} ListStands(s: string) returns (n: Node)
    requires ParseArray(s).Ok?
    ensures n.List? && WellNode(n) && "[" + s == NodeThen(n, ParseArray(s).rest) && NodeVal(n) == ParseArray(s).value
    decreases |s|, 2
  {
    hide SkipSpace, ParseItems, WellItems, Vals, ItemsThen;
    var t := SkipSpace(s);
    if t != "" && t[0] == ']' {
      var w := Leading(s);
      assert t == "]" + t[1..];
      NoItems();
      n := List([], w);
    } else {
      ParseSkips(s);
      var items := ItemsStand(s);
      n := List(items, "");
    }
  }

  lemma NoItems()
    ensures WellItems([]) && Vals([]) == []
  {
  }

  lemma NoEntries()
    ensures WellEntries([]) && Members([]) == []
  {
  }

  lemma {:induction false} ItemsStand(s: string) returns (items: seq<Item>)
    requires ParseItems(s).Ok?
    ensures items != [] && WellItems(items) && s == ItemsThen(items, ParseItems(s).rest)
    ensures Vals(items) == ParseItems(s).value
    decreases |s|, 1
  {
    hide SkipSpace, Parse, Well, TreeThen, Val, WellItems, Vals, ItemsThen;
    var k := ParseItems(s).rest;
    var tree := TreeStands(s);
    var r := Parse(s).rest;
    var w := NextStands(r);
    var n := Next(r);
    var more: seq<Item> := [];
    if n.value == ',' { more := ItemsStand(n.rest); } else { NoItems(); }
    items := [Item(tree, w)] + more;
    ItemsBegin(Item(tree, w), more, k);
  }

  lemma ItemsBegin(i: Item, more: seq<Item>, k: string)
    requires Blank(i.after) && Well(i.tree) && WellItems(more)
    ensures var items := [i] + more;
      WellItems(items) && Vals(items) == [Val(i.tree)] + Vals(more) &&
      ItemsThen(items, k) == TreeThen(i.tree, i.after + if more == [] then "]" + k else "," + ItemsThen(more, k))
  {
    hide Well, Blank, Val, TreeThen;
    var items := [i] + more;
    assert items[1..] == more && items[0] == i;
  }

  lemma {:induction false} RecordStands(s: string) returns (n: Node)
    requires ParseObject(s).Ok?
    ensures n.Record? && WellNode(n) && "{" + s == NodeThen(n, ParseObject(s).rest)
    ensures NodeVal(n) == ParseObject(s).value
    decreases |s|, 2
  {
    hide SkipSpace, ParseMembers, WellEntries, Members, EntriesThen, Build, KeyThen;
    var c := Next(s);
    var w := NextStands(s);
    if c.value == '}' {
      NoEntries();
      assert Build([]) == [] by { BuildNothing(); }
      n := Record([], w);
    } else {
      NotAKey(c.value, c.rest);
      var es := EntriesStand(w, c.rest);
      n := Record(es, "");
    }
  }

  lemma BuildNothing()
    ensures Build([]) == []
  {
  }

  lemma {:induction false} EntriesStand(before: string, s: string) returns (es: seq<Entry>)
    requires Blank(before) && ParseMembers('"', s).Ok?
    ensures es != [] && WellEntries(es) && before + ("\"" + s) == EntriesThen(es, ParseMembers('"', s).rest)
    ensures Members(es) == ParseMembers('"', s).value
    decreases |s|, 1
  {
    hide SkipSpace, Parse, ParseKey, Well, TreeThen, Val, WellEntries, Members, EntriesThen, KeyText, Solid,
      ParseMoreMembers;
    var k := ParseMembers('"', s).rest;
    var key := KeyStands(s);
    var s1 := ParseKey(s).rest;
    var afterKey := NextStands(s1);
    var s2 := Next(s1).rest;
    var tree := TreeStands(s2);
    var p := Parse(s2);
    var after, more := MoreStand(Member(ParseKey(s).value, p.value), p.rest);
    var e := Entry(before, key, afterKey, tree, after);
    es := [e] + more;
    EntriesBegin(e, more, k);
  }

  lemma EntriesBegin(e: Entry, more: seq<Entry>, k: string)
    requires Blank(e.before) && KeyText(e.key) && Blank(e.afterKey) && Well(e.tree) && Blank(e.after) && WellEntries(more)
    ensures var es := [e] + more;
      WellEntries(es) && Members(es) == [Member(Solid(e.key), Val(e.tree))] + Members(more) &&
      EntriesThen(es, k) == e.before + ("\"" + (e.key + ("\"" + (e.afterKey + (":" + TreeThen(e.tree, e.after +
        if more == [] then "}" + k else "," + EntriesThen(more, k)))))))
  {
    hide Well, Blank, Val, TreeThen, KeyText, Solid;
    var es := [e] + more;
    assert es[1..] == more && es[0] == e;
    assert EntryTail(es, k) == e.after + if more == [] then "}" + k else "," + EntriesThen(more, k);
    assert KeyThen(es, k) == e.key + ("\"" + (e.afterKey + (":" + TreeThen(e.tree, EntryTail(es, k)))));
  }

  lemma {:induction false} MoreStand(m: Member, s: string) returns (after: string, more: seq<Entry>)
    requires ParseMoreMembers(m, s).Ok?
    ensures Blank(after) && WellEntries(more) && [m] + Members(more) == ParseMoreMembers(m, s).value
    ensures var k := ParseMoreMembers(m, s).rest;
      s == after + if more == [] then "}" + k else "," + EntriesThen(more, k)
    decreases |s|, 2
  {
    hide SkipSpace, ParseMembers, WellEntries, Members, EntriesThen;
    after := NextStands(s);
    var n := Next(s);
    if n.value == '}' {
      NoEntries();
      more := [];
      assert [m] + [] == [m];
    } else {
      var before := NextStands(n.rest);
      var d := Next(n.rest);
      NotAKey(d.value, d.rest);
      more := EntriesStand(before, d.rest);
    }
  }

  // ----- the theorem -----

  /** s is the text of a tree of value v with rest behind it; a number takes every digit there is. */
  ghost predicate Reads(s: string, v: Value, rest: string)
  {
    exists t: Tree :: ReadsAs(t, s, v, rest)
  }

  predicate ReadsAs(t: Tree, s: string, v: Value, rest: string)
  {
    Well(t) && s == TreeThen(t, rest) && Val(t) == v && (t.node.Number? ==> Stops(rest))
  }

  lemma ParseExact(s: string, v: Value, rest: string)
    ensures Parse(s) == Ok(v, rest) <==> Reads(s, v, rest)
  {
    hide Parse, Well, TreeThen, Val;
    if Parse(s) == Ok(v, rest) {
      var t := TreeStands(s);
      assert ReadsAs(t, s, v, rest);
    }
    if Reads(s, v, rest) {
      var t: Tree :| ReadsAs(t, s, v, rest);
      TreeRead(t, rest);
    }
  }

  /** The texts that are refused are those that no tree has. */
  lemma RefusedExact(s: string)
    ensures Parse(s).Ok? <==> exists v: Value, rest: string :: Reads(s, v, rest)
  {
    hide Parse, Reads;
    if Parse(s).Ok? {
      var p := Parse(s);
      ParseExact(s, p.value, p.rest);
      assert Reads(s, p.value, p.rest);
    }
    if v: Value, rest: string :| Reads(s, v, rest) {
      ParseExact(s, v, rest);
    }
  }

  // ----- what the texts stand for -----

  /** The number a text of digits with or without a sign names. */
  function Named(t: string): int
    requires IntegerText(t)
  {
    if t[0] == '-' then 0 - NatValue(t[1..])
    else
      assert AllDigits(t);
      NatValue(t)
  }

  /** The value of a number is the signed 64-bit integer nearest to the one it names. */
  lemma NearestInteger(t: string, m: int)
    requires IntegerText(t) && -9223372036854775808 <= m <= 9223372036854775807
    ensures -9223372036854775808 <= IntValue(t) <= 9223372036854775807
    ensures var n := Named(t);
      (if IntValue(t) < n then n - IntValue(t) else IntValue(t) - n) <= if m < n then n - m else m - n
  {
    if t == "-" { assert t[1..] == ""; }
    hide NatValue;
  }

  /** Items stand between brackets with commas alone between them. */
  lemma ListOfThree(x: Value, y: Value, z: Value)
    ensures Print(Array([x, y, z])) == "[" + (Print(x) + "," + (Print(y) + "," + Print(z))) + "]"
  {
    assert [x, y, z][1..] == [y, z] && [y, z][1..] == [z];
    assert PrintItems([z]) == Print(z);
    assert PrintItems([y, z]) == Print(y) + "," + Print(z);
    assert PrintItems([x, y, z]) == Print(x) + "," + PrintItems([y, z]);
  }

  /** So do members between braces, each a quoted key, a colon and its value. */
  lemma RecordOfTwo(m: Member, n: Member)
    ensures Print(Object([m, n])) ==
            "{" + ("\"" + m.key + "\":" + Print(m.value) + "," + ("\"" + n.key + "\":" + Print(n.value))) + "}"
  {
    assert [m, n][1..] == [n];
    assert PrintMembers([n]) == PrintMember(n);
    assert PrintMembers([m, n]) == PrintMember(m) + "," + PrintMember(n);
  }

  lemma WordsAndQuotes(text: string)
    ensures Print(Bool(true)) == "true" && Print(Bool(false)) == "false" && Print(Nil) == "null"
    ensures Print(Integer(-10)) == "-10" && Print(Integer(7)) == "7" && Print(Str(text)) == "\"" + text + "\""
  {
    assert NatText(1) == "1" && NatText(10) == "1" + "0" && NatText(7) == "7";
  }
}
