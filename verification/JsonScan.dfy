/** Splitting a printed JSON array (sections 2 to 7 of RFC 8259) into its objects by counting braces. */
module JsonScan {
  import opened Basics
  import opened Text

  // ---- The scanner ----

  /** `open` is the text since the brace that opened the current item, when there is one. */
  datatype Scan = Scan(depth: int, open: Option<string>, inString: bool, escaped: bool, items: seq<string>) {

    /** The same state, with more text in the current item. */
    function Grow(text: string): Scan {
      if open.None? then this else this.(open := Some(open.value + text))
    }

    function Next(c: char): Scan {
      var s := Grow([c]);
      if escaped then s.(escaped := false)
      else if c == '\\' && inString then s.(escaped := true)
      else if c == '\"' then s.(inString := !inString)
      else if c == '{' && !inString then s.(open := if depth == 0 then Some([c]) else s.open, depth := depth + 1)
      else if c == '}' && !inString then
        if depth == 1 && open.Some? then s.(depth := 0, open := None, items := items + [s.open.value])
        else s.(depth := depth - 1)
      else s
    }
  }

  const FRESH := Scan(0, None, false, false, [])

  function Feed(s: Scan, text: string): Scan {
    if text == [] then s else Feed(s, Front(text)).Next(Last(text))
  }

  function Items(text: string): seq<string> {
    Feed(FRESH, text).items
  }

  /** The items of a text, collected by one pass over its characters. The depth stays within the length of the text. */
  method ArrayItems(text: string) returns (items: seq<string>)
    ensures items == Items(text)
  {
    items := [];
    var depth, start: Option<nat>, inString, escaped := 0, None, false, false;
    for i := 0 to |text|
      invariant start.Some? ==> start.value < i
      invariant Feed(FRESH, text[..i])
             == Scan(depth, if start.Some? then Some(text[start.value..i]) else None, inString, escaped, items)
      invariant -i <= depth <= i
    {
      var c := text[i];
      assert Front(text[..i + 1]) == text[..i];
      assert start.Some? ==> text[start.value..i] + [c] == text[start.value..i + 1];
      assert [c] == text[i..i + 1];
      if escaped {
        escaped := false;
        continue;
      }
      if c == '\\' && inString {
        escaped := true;
      } else if c == '\"' {
        inString := !inString;
      } else if c == '{' && !inString {
        if depth == 0 {
          start := Some(i);
        }
        depth := depth + 1;
      } else if c == '}' && !inString {
        depth := depth - 1;
        if depth == 0 {
          if start.Some? {
            items := items + [text[start.value..i + 1]];
            start := None;
          }
        }
      }
    }
    assert text[..|text|] == text;
  }

  // ---- What a JSON printer may write ----

  /** One character of a string: itself, a two-character escape, or an escape by code. */
  datatype JChar = Plain(c: char) | Short(c: char) | Code(hex: string) {
    predicate Valid() {
      match this
      case Plain(c) => c != '\"' && c != '\\' && c >= ' '
      case Short(c) => c in "\"\\/bfnrt"
      case Code(hex) => |hex| == 4 && forall i | 0 <= i < 4 :: HexDigit(hex[i]).Some?
    }

    function Print(): string {
      match this
      case Plain(c) => [c]
      case Short(c) => ['\\', c]
      case Code(hex) => ['\\', 'u'] + hex
    }
  }

  /** A value as printed: any choice of escapes, and white space (`lead`, `before`, `after`) wherever it is allowed. */
  datatype Json =
    | Atom(text: string)
    | Str(chars: seq<JChar>)
    | Arr(lead: string, elements: seq<Json>)
    | Obj(lead: string, members: seq<Member>)
    | Pad(before: string, inner: Json, after: string)

  datatype Member = Member(before: string, key: seq<JChar>, after: string, value: Json)

  predicate IsBlank(s: string) {
    forall i | 0 <= i < |s| :: s[i] in " \t\n\r"
  }

  /** Numbers and the three names: letters, digits, signs and the point. */
  predicate IsAtom(s: string) {
    forall i | 0 <= i < |s| :: 'a' <= s[i] <= 'z' || 'A' <= s[i] <= 'Z' || '0' <= s[i] <= '9' || s[i] in "+-."
  }

  predicate ValidChars(cs: seq<JChar>) {
    forall i | 0 <= i < |cs| :: cs[i].Valid()
  }

  predicate ValidJson(j: Json) {
    match j
    case Atom(text) => IsAtom(text)
    case Str(chars) => ValidChars(chars)
    case Arr(lead, elements) => IsBlank(lead) && forall e | e in elements :: ValidJson(e)
    case Obj(lead, members) => IsBlank(lead) && forall m | m in members :: ValidMember(m)
    case Pad(before, inner, after) => IsBlank(before) && ValidJson(inner) && IsBlank(after)
  }

  predicate ValidMember(m: Member) {
    IsBlank(m.before) && ValidChars(m.key) && IsBlank(m.after) && ValidJson(m.value)
  }

  function PrintChars(cs: seq<JChar>): string {
    if cs == [] then [] else cs[0].Print() + PrintChars(cs[1..])
  }

  function PrintString(cs: seq<JChar>): string {
    "\"" + (PrintChars(cs) + "\"")
  }

  function PrintJson(j: Json): string {
    match j
    case Atom(text) => text
    case Str(chars) => PrintString(chars)
    case Arr(lead, elements) => ("[" + lead) + (PrintElements(elements) + "]")
    case Obj(lead, members) => "{" + ((lead + PrintMembers(members)) + "}")
    case Pad(before, inner, after) => before + (PrintJson(inner) + after)
  }

  function PrintElements(es: seq<Json>): string {
    if es == [] then []
    else if |es| == 1 then PrintJson(es[0])
    else PrintJson(es[0]) + ("," + PrintElements(es[1..]))
  }

  function PrintMember(m: Member): string {
    m.before + (PrintString(m.key) + ((m.after + ":") + PrintJson(m.value)))
  }

  function PrintMembers(ms: seq<Member>): string {
    if ms == [] then []
    else if |ms| == 1 then PrintMember(ms[0])
    else PrintMember(ms[0]) + ("," + PrintMembers(ms[1..]))
  }

  // ---- Scanning what was printed ----

  lemma {:induction false} FeedBoth(s: Scan, a: string, b: string)
    ensures Feed(s, a + b) == Feed(Feed(s, a), b)
  {
    if b == [] {
      assert a + b == a;
    } else {
      assert Front(a + b) == a + Front(b);
      FeedBoth(s, a, Front(b));
    }
  }

  lemma {:induction false} FeedOne(s: Scan, c: char)
    ensures Feed(s, [c]) == s.Next(c)
  {
    assert Front([c]) == [] && Feed(s, []) == s;
  }

  lemma {:induction false} GrowBoth(s: Scan, a: string, b: string)
    ensures s.Grow(a).Grow(b) == s.Grow(a + b)
  {
    if s.open.Some? {
      assert (s.open.value + a) + b == s.open.value + (a + b);
    }
  }

  lemma {:induction false} GrowNothing(s: Scan)
    ensures s.Grow([]) == s
  {
    if s.open.Some? {
      assert s.open.value + [] == s.open.value;
    }
  }

  /** The text adds to the current item and changes nothing else. */
  predicate Inert(s: Scan, text: string) {
    Feed(s, text) == s.Grow(text)
  }

  lemma {:induction false} InertBoth(s: Scan, a: string, b: string)
    requires Inert(s, a) && Inert(s.Grow(a), b)
    ensures Inert(s, a + b)
  {
    FeedBoth(s, a, b);
    GrowBoth(s, a, b);
  }

  predicate Outside(s: Scan) {
    !s.inString && !s.escaped
  }

  predicate IsQuiet(c: char) {
    c != '\"' && c != '{' && c != '}'
  }

  /** Outside a string, text without quotes and braces is inert. */
  lemma {:induction false} QuietIsInert(s: Scan, text: string)
    requires Outside(s) && forall i | 0 <= i < |text| :: IsQuiet(text[i])
    ensures Inert(s, text)
  {
    if text == [] {
      GrowNothing(s);
    } else {
      QuietIsInert(s, Front(text));
      GrowBoth(s, Front(text), [Last(text)]);
      assert Front(text) + [Last(text)] == text;
    }
  }

  predicate Inside(s: Scan) {
    s.inString && !s.escaped
  }

  /** Inside a string, text without quotes and backslashes is inert. */
  lemma {:induction false} PlainTextIsInert(s: Scan, text: string)
    requires Inside(s) && forall i | 0 <= i < |text| :: text[i] != '\"' && text[i] != '\\'
    ensures Inert(s, text)
  {
    if text == [] {
      GrowNothing(s);
    } else {
      PlainTextIsInert(s, Front(text));
      GrowBoth(s, Front(text), [Last(text)]);
      assert Front(text) + [Last(text)] == text;
    }
  }

  /** Inside a string, a backslash and any character after it are inert together. */
  lemma {:induction false} EscapeIsInert(s: Scan, c: char)
    requires Inside(s)
    ensures Inert(s, ['\\', c])
  {
    FeedOne(s, '\\');
    FeedOne(s.Next('\\'), c);
    FeedBoth(s, ['\\'], [c]);
    GrowBoth(s, ['\\'], [c]);
    assert ['\\'] + [c] == ['\\', c];
  }

  lemma {:induction false} JCharIsInert(s: Scan, c: JChar)
    requires Inside(s) && c.Valid()
    ensures Inert(s, c.Print())
  {
    match c {
      case Plain(_) => PlainTextIsInert(s, c.Print());
      case Short(x) => EscapeIsInert(s, x);
      case Code(hex) =>
        EscapeIsInert(s, 'u');
        PlainTextIsInert(s.Grow(['\\', 'u']), hex);
        InertBoth(s, ['\\', 'u'], hex);
    }
  }

  lemma {:induction false} CharsAreInert(s: Scan, cs: seq<JChar>)
    requires Inside(s) && ValidChars(cs)
    ensures Inert(s, PrintChars(cs))
    decreases |cs|
  {
    if cs == [] {
      GrowNothing(s);
    } else {
      JCharIsInert(s, cs[0]);
      CharsAreInert(s.Grow(cs[0].Print()), cs[1..]);
      InertBoth(s, cs[0].Print(), PrintChars(cs[1..]));
    }
  }

  /** A printed string is inert, whatever it says. */
  lemma {:induction false} StringIsInert(s: Scan, cs: seq<JChar>)
    requires Outside(s) && ValidChars(cs)
    ensures Inert(s, PrintString(cs))
  {
    var inner := PrintChars(cs);
    var t := s.Next('\"');
    FeedBoth(s, "\"", inner + "\"");
    FeedBoth(t, inner, "\"");
    FeedOne(s, '\"');
    CharsAreInert(t, cs);
    FeedOne(t.Grow(inner), '\"');
    GrowBoth(s, "\"", inner);
    GrowBoth(s, "\"" + inner, "\"");
    GrowBoth(s, "\"", inner + "\"");
    GrowBoth(s.Grow("\""), inner, "\"");
  }

  /** Below the top level, a printed value is inert. */
  lemma {:induction false} ValueIsInert(s: Scan, j: Json)
    requires Outside(s) && s.depth >= 1 && ValidJson(j)
    ensures Inert(s, PrintJson(j))
    decreases j, 2
  {
    match j {
      case Atom(text) =>
        QuietIsInert(s, text);
      case Str(cs) =>
        StringIsInert(s, cs);
      case Arr(lead, es) =>
        var open, inner := "[" + lead, PrintElements(es);
        QuietIsInert(s, open);
        ElementsAreInert(s.Grow(open), es);
        QuietIsInert(s.Grow(open).Grow(inner), "]");
        InertBoth(s.Grow(open), inner, "]");
        InertBoth(s, open, inner + "]");
      case Obj(lead, ms) =>
        ObjectIsInert(s, j);
      case Pad(before, inner, after) =>
        var printed := PrintJson(inner);
        QuietIsInert(s, before);
        ValueIsInert(s.Grow(before), inner);
        QuietIsInert(s.Grow(before).Grow(printed), after);
        InertBoth(s.Grow(before), printed, after);
        InertBoth(s, before, printed + after);
    }
  }

  /** What is between the braces of an object is inert. */
  lemma {:induction false} InsideOfObjectIsInert(s: Scan, j: Json)
    requires j.Obj? && Outside(s) && s.depth >= 1 && ValidJson(j)
    ensures Inert(s, j.lead + PrintMembers(j.members))
    decreases j, 0
  {
    QuietIsInert(s, j.lead);
    MembersAreInert(s.Grow(j.lead), j.members);
    InertBoth(s, j.lead, PrintMembers(j.members));
  }

  lemma {:induction false} ObjectIsInert(s: Scan, j: Json)
    requires j.Obj? && Outside(s) && s.depth >= 1 && ValidJson(j)
    ensures Inert(s, PrintJson(j))
    decreases j, 1
  {
    var inner := j.lead + PrintMembers(j.members);
    InsideOfObjectIsInert(s.Next('{'), j);
    FeedBraces(s, inner);
    GrowBoth(s, "{", inner);
    GrowBoth(s, "{" + inner, "}");
    assert ("{" + inner) + "}" == "{" + (inner + "}");
  }

  /** Scanning braces around inert text is scanning the two braces. */
  lemma {:induction false} FeedBraces(s: Scan, inner: string)
    requires Inert(s.Next('{'), inner)
    ensures Feed(s, "{" + (inner + "}")) == s.Next('{').Grow(inner).Next('}')
  {
    FeedOne(s, '{');
    FeedBoth(s, "{", inner + "}");
    FeedBoth(s.Next('{'), inner, "}");
    FeedOne(s.Next('{').Grow(inner), '}');
  }

  lemma {:induction false} ElementsAreInert(s: Scan, es: seq<Json>)
    requires Outside(s) && s.depth >= 1 && forall e | e in es :: ValidJson(e)
    ensures Inert(s, PrintElements(es))
    decreases es, 0
  {
    if es == [] {
      GrowNothing(s);
    } else if |es| == 1 {
      ValueIsInert(s, es[0]);
    } else {
      var head, rest := PrintJson(es[0]), PrintElements(es[1..]);
      ValueIsInert(s, es[0]);
      QuietIsInert(s.Grow(head), ",");
      ElementsAreInert(s.Grow(head).Grow(","), es[1..]);
      InertBoth(s.Grow(head), ",", rest);
      InertBoth(s, head, "," + rest);
    }
  }

  lemma {:induction false} MemberIsInert(s: Scan, m: Member)
    requires Outside(s) && s.depth >= 1 && ValidMember(m)
    ensures Inert(s, PrintMember(m))
    decreases m, 0
  {
    var key, colon, value := PrintString(m.key), m.after + ":", PrintJson(m.value);
    var a := s.Grow(m.before);
    var b := a.Grow(key);
    var c := b.Grow(colon);
    QuietIsInert(s, m.before);
    StringIsInert(a, m.key);
    QuietIsInert(b, colon);
    ValueIsInert(c, m.value);
    InertBoth(b, colon, value);
    InertBoth(a, key, colon + value);
    InertBoth(s, m.before, key + (colon + value));
  }

  lemma {:induction false} MembersAreInert(s: Scan, ms: seq<Member>)
    requires Outside(s) && s.depth >= 1 && forall m | m in ms :: ValidMember(m)
    ensures Inert(s, PrintMembers(ms))
    decreases ms, 0
  {
    if ms == [] {
      GrowNothing(s);
    } else if |ms| == 1 {
      MemberIsInert(s, ms[0]);
    } else {
      var head, rest := PrintMember(ms[0]), PrintMembers(ms[1..]);
      MemberIsInert(s, ms[0]);
      QuietIsInert(s.Grow(head), ",");
      MembersAreInert(s.Grow(head).Grow(","), ms[1..]);
      InertBoth(s.Grow(head), ",", rest);
      InertBoth(s, head, "," + rest);
    }
  }

  // ---- The array ----

  /** An element of the top-level array: an object, with the white space around it. */
  datatype Element = Element(before: string, obj: Json, after: string) {
    predicate Valid() {
      IsBlank(before) && obj.Obj? && ValidJson(obj) && IsBlank(after)
    }

    function Print(): string {
      before + (PrintJson(obj) + after)
    }
  }

  function PrintAll(es: seq<Element>): string {
    if es == [] then []
    else if |es| == 1 then es[0].Print()
    else es[0].Print() + ("," + PrintAll(es[1..]))
  }

  function PrintArray(opening: string, es: seq<Element>, after: string): string {
    opening + (PrintAll(es) + ("]" + after))
  }

  /** Text that neither begins nor ends a string or an object. */
  predicate AllQuiet(text: string) {
    forall i | 0 <= i < |text| :: IsQuiet(text[i])
  }

  /** The bracket that opens the array, with any white space around it. */
  predicate IsOpening(text: string) {
    exists i | 0 <= i < |text| :: text[i] == '[' && IsBlank(text[..i]) && IsBlank(text[i + 1..])
  }

  lemma {:induction false} OpeningIsQuiet(opening: string)
    requires IsOpening(opening)
    ensures AllQuiet(opening)
  {
    var i :| 0 <= i < |opening| && opening[i] == '[' && IsBlank(opening[..i]) && IsBlank(opening[i + 1..]);
    forall j | 0 <= j < |opening| ensures IsQuiet(opening[j]) {
      if j < i {
        assert opening[..i][j] == opening[j];
      } else if j > i {
        assert opening[i + 1..][j - i - 1] == opening[j];
      }
    }
  }

  function Objects(es: seq<Element>): seq<string> {
    if es == [] then [] else [PrintJson(es[0].obj)] + Objects(es[1..])
  }

  /** Between items, at the top level. */
  predicate AtTop(s: Scan) {
    Outside(s) && s.depth == 0 && s.open.None?
  }

  function Found(s: Scan, items: seq<string>): Scan {
    s.(items := s.items + items)
  }

  /** At the top level, a printed object becomes an item. */
  lemma {:induction false} ObjectIsFound(s: Scan, j: Json)
    requires j.Obj? && AtTop(s) && ValidJson(j)
    ensures Feed(s, PrintJson(j)) == Found(s, [PrintJson(j)])
  {
    var inner := j.lead + PrintMembers(j.members);
    InsideOfObjectIsInert(s.Next('{'), j);
    FeedBraces(s, inner);
    assert ("{" + inner) + "}" == "{" + (inner + "}");
  }

  lemma {:induction false} ElementIsFound(s: Scan, e: Element)
    requires AtTop(s) && e.Valid()
    ensures Feed(s, e.Print()) == Found(s, [PrintJson(e.obj)])
  {
    var printed := PrintJson(e.obj);
    var t := Found(s, [printed]);
    QuietIsInert(s, e.before);
    ObjectIsFound(s, e.obj);
    QuietIsInert(t, e.after);
    FeedBoth(s, e.before, printed + e.after);
    FeedBoth(s, printed, e.after);
  }

  /** After the first element and the comma, scanning goes on with the rest. */
  lemma {:induction false} AfterTheFirst(s: Scan, e: Element, rest: string)
    requires AtTop(s) && e.Valid()
    ensures Feed(s, e.Print() + ("," + rest)) == Feed(Found(s, [PrintJson(e.obj)]), rest)
  {
    var t := Found(s, [PrintJson(e.obj)]);
    ElementIsFound(s, e);
    FeedBoth(s, e.Print(), "," + rest);
    FeedBoth(t, ",", rest);
    QuietIsInert(t, ",");
  }

  lemma {:induction false} FoundOneMore(s: Scan, es: seq<Element>)
    requires es != []
    ensures Found(Found(s, [PrintJson(es[0].obj)]), Objects(es[1..])) == Found(s, Objects(es))
  {
    var first, rest := [PrintJson(es[0].obj)], Objects(es[1..]);
    assert (s.items + first) + rest == s.items + (first + rest);
  }

  lemma {:induction false} AllAreFound(s: Scan, es: seq<Element>)
    requires AtTop(s) && forall i | 0 <= i < |es| :: es[i].Valid()
    ensures Feed(s, PrintAll(es)) == Found(s, Objects(es))
    decreases |es|
  {
    if es == [] {
      assert s.items + [] == s.items;
    } else {
      var t := Found(s, [PrintJson(es[0].obj)]);
      ElementIsFound(s, es[0]);
      FoundOneMore(s, es);
      if |es| > 1 {
        AfterTheFirst(s, es[0], PrintAll(es[1..]));
        AllAreFound(t, es[1..]);
      }
    }
  }

  lemma {:induction false} ItemsOnlyGrow(s: Scan, text: string)
    ensures s.items <= Feed(s, text).items
  {
    if text != [] {
      ItemsOnlyGrow(s, Front(text));
    }
  }

  // ---- The array, cut ----

  /** How many objects end among the first `n` characters of the printed elements. */
  function Complete(es: seq<Element>, n: nat): (k: nat)
    ensures k <= |es|
  {
    if es == [] || n < |es[0].before| + |PrintJson(es[0].obj)| then 0
    else 1 + Complete(es[1..], if n < |es[0].Print()| + 1 then 0 else n - |es[0].Print()| - 1)
  }

  /** How many end among the first `n` characters of the array, whose elements start after its opening. */
  function CompleteIn(opening: string, es: seq<Element>, n: nat): (k: nat)
    ensures k <= |es|
  {
    Complete(es, if n < |opening| then 0 else n - |opening|)
  }

  lemma {:induction false} NoneIsComplete(es: seq<Element>)
    requires forall i | 0 <= i < |es| :: es[i].Valid()
    ensures Complete(es, 0) == 0
  {
  }

  lemma {:induction false} AllAreComplete(es: seq<Element>, n: nat)
    requires n >= |PrintAll(es)|
    ensures Complete(es, n) == |es|
    decreases |es|
  {
    if |es| > 0 {
      AllAreComplete(es[1..], if n < |es[0].Print()| + 1 then 0 else n - |es[0].Print()| - 1);
    }
  }

  /** What finds nothing finds nothing on the way either. */
  lemma {:induction false} NothingFoundYet(s: Scan, text: string, cut: string)
    requires cut <= text && Feed(s, text).items == s.items
    ensures Feed(s, cut).items == s.items
  {
    assert text == cut + text[|cut|..];
    FeedBoth(s, cut, text[|cut|..]);
    ItemsOnlyGrow(s, cut);
    ItemsOnlyGrow(Feed(s, cut), text[|cut|..]);
  }

  /** An element up to the brace that ends its object. */
  function Opened(e: Element): string
    requires e.obj.Obj?
  {
    e.before + ("{" + (e.obj.lead + PrintMembers(e.obj.members)))
  }

  lemma {:induction false} OpenedThenEnded(e: Element)
    requires e.obj.Obj?
    ensures e.Print() == Opened(e) + ("}" + e.after) && |Opened(e)| + 1 == |e.before| + |PrintJson(e.obj)|
  {
    var inner := e.obj.lead + PrintMembers(e.obj.members);
    assert PrintJson(e.obj) == "{" + (inner + "}") == ("{" + inner) + "}";
    assert (("{" + inner) + "}") + e.after == ("{" + inner) + ("}" + e.after);
    assert e.before + (("{" + inner) + ("}" + e.after)) == (e.before + ("{" + inner)) + ("}" + e.after);
  }

  lemma {:induction false} OpenedFindsNothing(s: Scan, e: Element)
    requires AtTop(s) && e.Valid()
    ensures Feed(s, Opened(e)).items == s.items
  {
    var inner := e.obj.lead + PrintMembers(e.obj.members);
    QuietIsInert(s, e.before);
    FeedBoth(s, e.before, "{" + inner);
    FeedBoth(s, "{", inner);
    FeedOne(s, '{');
    InsideOfObjectIsInert(s.Next('{'), e.obj);
  }

  /** An element finds nothing until its object ends. */
  lemma {:induction false} UnfinishedIsNotFound(s: Scan, e: Element, cut: string)
    requires AtTop(s) && e.Valid() && cut <= e.Print() && |cut| < |e.before| + |PrintJson(e.obj)|
    ensures Feed(s, cut).items == s.items
  {
    OpenedThenEnded(e);
    CutOfTwo(Opened(e), "}" + e.after, cut);
    OpenedFindsNothing(s, e);
    NothingFoundYet(s, Opened(e), cut);
  }

  /** Once its object has ended, an element has been found, however much of what follows the object is there. */
  lemma {:induction false} FinishedIsFound(s: Scan, e: Element, cut: string)
    requires AtTop(s) && e.Valid() && cut <= e.Print() && |cut| >= |e.before| + |PrintJson(e.obj)|
    ensures Feed(s, cut).items == s.items + [PrintJson(e.obj)]
  {
    var printed := PrintJson(e.obj);
    CutOfTwo(e.before, printed + e.after, cut);
    CutOfTwo(printed, e.after, cut[|e.before|..]);
    var blanks := cut[|e.before|..][|printed|..];
    ElementIsFound(s, e.(after := blanks));
  }

  lemma {:induction false} FirstIsFound(s: Scan, es: seq<Element>, cut: string)
    requires AtTop(s) && (forall i | 0 <= i < |es| :: es[i].Valid()) && es != [] && cut <= es[0].Print()
    requires |cut| >= |es[0].before| + |PrintJson(es[0].obj)|
    ensures Feed(s, cut).items == s.items + Objects(es[..Complete(es, |cut|)])
  {
    FinishedIsFound(s, es[0], cut);
    NoneIsComplete(es[1..]);
    assert es[..1] == [es[0]] && Objects([es[0]]) == [PrintJson(es[0].obj)];
  }

  lemma {:induction false} CompleteAreFound(s: Scan, es: seq<Element>, cut: string)
    requires AtTop(s) && (forall i | 0 <= i < |es| :: es[i].Valid()) && cut <= PrintAll(es)
    ensures Feed(s, cut).items == s.items + Objects(es[..Complete(es, |cut|)])
    decreases |es|, 1
  {
    if es == [] {
      assert s.items + [] == s.items;
    } else if |cut| < |es[0].before| + |PrintJson(es[0].obj)| {
      CutInTheFirst(es, cut);
      UnfinishedIsNotFound(s, es[0], cut);
    } else if |cut| <= |es[0].Print()| {
      CutInTheFirst(es, cut);
      FirstIsFound(s, es, cut);
    } else {
      var rest := CutAfterTheFirst(es, cut);
      MoreAreFound(s, es, rest);
    }
  }

  lemma {:induction false} CutInTheFirst(es: seq<Element>, cut: string)
    requires es != [] && cut <= PrintAll(es) && |cut| <= |es[0].Print()|
    ensures cut <= es[0].Print()
  {
    if |es| > 1 {
      CutOfTwo(es[0].Print(), "," + PrintAll(es[1..]), cut);
    }
  }

  lemma {:induction false} CutAfterTheFirst(es: seq<Element>, cut: string) returns (rest: string)
    requires es != [] && cut <= PrintAll(es) && |cut| > |es[0].Print()|
    ensures cut == es[0].Print() + ("," + rest) && rest <= PrintAll(es[1..])
    ensures Complete(es, |cut|) == Complete(es[1..], |rest|) + 1
  {
    var first, more := es[0].Print(), PrintAll(es[1..]);
    CutOfTwo(first, "," + more, cut);
    CutOfTwo(",", more, cut[|first|..]);
    rest := cut[|first|..][1..];
  }

  lemma {:induction false} ObjectsOfOneMore(items: seq<string>, es: seq<Element>, k: nat)
    requires k < |es|
    ensures items + Objects(es[..k + 1]) == (items + [PrintJson(es[0].obj)]) + Objects(es[1..][..k])
  {
    assert es[..k + 1][0] == es[0] && es[..k + 1][1..] == es[1..][..k];
  }

  lemma {:induction false} MoreAreFound(s: Scan, es: seq<Element>, rest: string)
    requires AtTop(s) && (forall i | 0 <= i < |es| :: es[i].Valid()) && es != [] && rest <= PrintAll(es[1..])
    ensures Feed(s, es[0].Print() + ("," + rest)).items == s.items + Objects(es[..Complete(es[1..], |rest|) + 1])
    decreases |es|, 0
  {
    AfterTheFirst(s, es[0], rest);
    CompleteAreFound(Found(s, [PrintJson(es[0].obj)]), es[1..], rest);
    ObjectsOfOneMore(s.items, es, Complete(es[1..], |rest|));
  }

  lemma {:induction false} OpeningFindsNothing(opening: string, cut: string)
    requires AllQuiet(opening) && cut <= opening
    ensures Items(cut) == []
  {
    QuietIsInert(FRESH, opening);
    NothingFoundYet(FRESH, opening, cut);
  }

  /** Cut anywhere, a printed array yields exactly the objects that end before the cut, in order. */
  lemma {:induction false} ItemsOfACutArray(opening: string, es: seq<Element>, after: string, cut: string)
    requires IsOpening(opening) && IsBlank(after) && forall i | 0 <= i < |es| :: es[i].Valid()
    requires cut <= PrintArray(opening, es, after)
    ensures Items(cut) == Objects(es[..CompleteIn(opening, es, |cut|)])
  {
    var close := "]" + after;
    OpeningIsQuiet(opening);
    CutOfTwo(opening, PrintAll(es) + close, cut);
    if |cut| <= |opening| {
      OpeningFindsNothing(opening, cut);
      NoneIsComplete(es);
    } else {
      CutElementsAreFound(opening, es, close, cut[|opening|..]);
    }
  }

  lemma {:induction false} CutElementsAreFound(opening: string, es: seq<Element>, close: string, cut: string)
    requires AllQuiet(opening) && (forall i | 0 <= i < |es| :: es[i].Valid()) && AllQuiet(close)
    requires cut <= PrintAll(es) + close
    ensures Items(opening + cut) == Objects(es[..Complete(es, |cut|)])
  {
    CutOfTwo(PrintAll(es), close, cut);
    if |cut| <= |PrintAll(es)| {
      QuietIsInert(FRESH, opening);
      FeedBoth(FRESH, opening, cut);
      CompleteAreFound(FRESH, es, cut);
      assert [] + Objects(es[..Complete(es, |cut|)]) == Objects(es[..Complete(es, |cut|)]);
    } else {
      AllAreComplete(es, |cut|);
      assert es[..|es|] == es;
      ItemsOfAnEndedArray(opening, es, cut[|PrintAll(es)|..]);
    }
  }

  lemma {:induction false} ItemsOfAnEndedArray(opening: string, es: seq<Element>, ending: string)
    requires AllQuiet(opening) && (forall i | 0 <= i < |es| :: es[i].Valid()) && AllQuiet(ending)
    ensures Items(opening + (PrintAll(es) + ending)) == Objects(es)
  {
    var inner, done := PrintAll(es), Found(FRESH, Objects(es));
    QuietIsInert(FRESH, opening);
    AllAreFound(FRESH, es);
    QuietIsInert(done, ending);
    FeedBoth(FRESH, opening, inner + ending);
    FeedBoth(FRESH, inner, ending);
    assert [] + Objects(es) == Objects(es);
  }

  /** The scanner inverts the printer: the items of a printed array are exactly its printed objects, in order. */
  lemma {:induction false} ItemsOfAPrintedArray(opening: string, es: seq<Element>, after: string)
    requires IsOpening(opening) && IsBlank(after) && forall i | 0 <= i < |es| :: es[i].Valid()
    ensures Items(PrintArray(opening, es, after)) == Objects(es)
  {
    OpeningIsQuiet(opening);
    ItemsOfAnEndedArray(opening, es, "]" + after);
  }

  /** Scanning does not look ahead, so the items of a prefix are the first items of the whole. */
  lemma {:induction false} ItemsOfAPrefix(cut: string, text: string)
    requires cut <= text
    ensures Items(cut) <= Items(text)
  {
    assert text == cut + text[|cut|..];
    FeedBoth(FRESH, cut, text[|cut|..]);
    ItemsOnlyGrow(Feed(FRESH, cut), text[|cut|..]);
  }
}
