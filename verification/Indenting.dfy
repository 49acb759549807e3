/** `Indent` (common/json/indent.go) lays out the tree of its input. */
module Indenting {
  import opened Bytes
  import opened Scanning
  import opened Grammar
  import opened Recognition
  import opened Rejection
  import opened Unambiguous
  import opened Trees
  import opened CompactResults

  datatype Format = Format(prefix: bytes, indent: bytes)

  /** The variables `needIndent` and `depth`. */
  datatype Layout = Layout(need: bool, depth: int)

  function Repeat(s: bytes, n: int): bytes
    decreases n
  {
    if n <= 0 then [] else s + Repeat(s, n - 1)
  }

  function Newline(f: Format, depth: int): bytes {
    [NEWLINE] + f.prefix + Repeat(f.indent, depth)
  }

  // ---------- the output, event by event ----------

  /** A delayed newline is due before anything but a closing byte. */
  predicate Wakes(lay: Layout, op: Op) {
    lay.need && !op.EndObject? && !op.EndArray?
  }

  function Woken(lay: Layout, op: Op): Layout {
    if Wakes(lay, op) then Layout(false, lay.depth + 1) else lay
  }

  function StepLayout(lay: Layout, e: Event): Layout {
    if e.op.SkipSpace? || e.op.Failed? then lay
    else
      var now := Woken(lay, e.op);
      if e.op.Continue? then now
      else if e.c == LBRACE || e.c == LBRACKET then now.(need := true)
      else if e.c == RBRACE || e.c == RBRACKET then
        if now.need then now.(need := false) else now.(depth := now.depth - 1)
      else now
  }

  /** What is written for a byte once the delayed newline is out. */
  function Punctuated(now: Layout, e: Event, f: Format): bytes {
    if e.op.Continue? then [e.c]
    else if e.c == COMMA then [e.c] + Newline(f, now.depth)
    else if e.c == COLON then [e.c, SPACE]
    else if e.c == RBRACE || e.c == RBRACKET then
      (if now.need then [] else Newline(f, now.depth - 1)) + [e.c]
    else [e.c]
  }

  function StepOut(lay: Layout, e: Event, f: Format): bytes {
    if e.op.SkipSpace? || e.op.Failed? then []
    else
      (if Wakes(lay, e.op) then Newline(f, lay.depth + 1) else [])
      + Punctuated(Woken(lay, e.op), e, f)
  }

  function Indented(es: seq<Event>, lay: Layout, f: Format): bytes
    decreases es
  {
    if es == [] then [] else StepOut(lay, es[0], f) + Indented(es[1..], StepLayout(lay, es[0]), f)
  }

  function After(es: seq<Event>, lay: Layout): Layout
    decreases es
  {
    if es == [] then lay else After(es[1..], StepLayout(lay, es[0]))
  }

  /** From layout `lay` the events `es` are written as `s` and leave layout `end`. */
  predicate Lays(lay: Layout, es: seq<Event>, f: Format, s: bytes, end: Layout) {
    Indented(es, lay, f) == s && After(es, lay) == end
  }

  lemma {:induction false} LaysThen(lay: Layout, a: seq<Event>, f: Format, s: bytes, mid: Layout,
                                    b: seq<Event>, t: bytes, end: Layout)
    requires Lays(lay, a, f, s, mid) && Lays(mid, b, f, t, end)
    ensures Lays(lay, a + b, f, s + t, end)
    decreases a
  {
    if a == [] {
      assert a + b == b;
      Unit(t);
    } else {
      var next := StepLayout(lay, a[0]);
      assert (a + b)[1..] == a[1..] + b;
      LaysThen(next, a[1..], f, Indented(a[1..], next, f), mid, b, t, end);
      Assoc(StepOut(lay, a[0], f), Indented(a[1..], next, f), t);
    }
  }

  lemma LaysOne(lay: Layout, e: Event, f: Format)
    ensures Lays(lay, [e], f, StepOut(lay, e, f), StepLayout(lay, e))
  {
    assert [e][1..] == [];
    Unit(StepOut(lay, e, f));
  }

  lemma {:induction false} LaysGap(lay: Layout, g: bytes, f: Format)
    ensures Lays(lay, Mark(g, SkipSpace), f, [], lay)
    decreases g
  {
    if g != [] {
      LaysGap(lay, g[1..], f);
    }
  }

  lemma {:induction false} LaysContinue(depth: int, s: bytes, f: Format)
    ensures Lays(Layout(false, depth), Mark(s, Continue), f, s, Layout(false, depth))
    decreases s
  {
    if s != [] {
      LaysContinue(depth, s[1..], f);
      assert s == [s[0]] + s[1..];
    }
  }

  lemma LaysLiteral(depth: int, text: bytes, f: Format)
    requires LexesAsLiteral(text)
    ensures Lays(Layout(false, depth), EventsLiteral(text), f, text, Layout(false, depth))
  {
    var lay := Layout(false, depth);
    LaysOne(lay, Event(text[0], BeginLiteral), f);
    LaysContinue(depth, text[1..], f);
    LaysThen(lay, [Event(text[0], BeginLiteral)], f, [text[0]], lay, Mark(text[1..], Continue), text[1..], lay);
    assert [text[0]] + text[1..] == text;
  }

  /** The delayed newline: events that open with a token of an element or a key. */
  predicate OpensToken(es: seq<Event>)
    decreases es
  {
    es != [] && if es[0].op.SkipSpace? then OpensToken(es[1..])
                else es[0].op.BeginLiteral? || es[0].op.BeginObject? || es[0].op.BeginArray?
  }

  lemma {:induction false} Wake(depth: int, es: seq<Event>, f: Format)
    requires OpensToken(es)
    ensures Indented(es, Layout(true, depth), f)
         == Newline(f, depth + 1) + Indented(es, Layout(false, depth + 1), f)
    ensures After(es, Layout(true, depth)) == After(es, Layout(false, depth + 1))
    decreases es
  {
    hide Newline;
    if es[0].op.SkipSpace? {
      Wake(depth, es[1..], f);
      Unit(Indented(es[1..], Layout(true, depth), f));
      Unit(Indented(es[1..], Layout(false, depth + 1), f));
    } else {
      var out := Punctuated(Layout(false, depth + 1), es[0], f);
      var rest := Indented(es[1..], StepLayout(Layout(false, depth + 1), es[0]), f);
      Unit(out);
      Assoc(Newline(f, depth + 1), out, rest);
    }
  }

  lemma {:induction false} GapOpens(g: bytes, es: seq<Event>)
    requires OpensToken(es)
    ensures OpensToken(Mark(g, SkipSpace) + es)
    decreases g
  {
    if g == [] {
      assert Mark(g, SkipSpace) + es == es;
    } else {
      assert (Mark(g, SkipSpace) + es)[1..] == Mark(g[1..], SkipSpace) + es;
      GapOpens(g[1..], es);
    }
  }

  // ---------- the laid out tree ----------

  function Pretty(v: Value, f: Format, depth: int): Value {
    match v
    case Literal(text) => v
    case EmptyArray(_) => EmptyArray([])
    case Array(es) => Array(PrettyElements(es, f, depth + 1))
    case EmptyObject(_) => EmptyObject([])
    case Object(ms) => Object(PrettyMembers(ms, f, depth + 1))
  }

  function PrettyElements(es: Elements, f: Format, depth: int): Elements {
    match es
    case Last(e) => Last(Element(Newline(f, depth), Pretty(e.value, f, depth), Newline(f, depth - 1)))
    case Trailing(e, _) =>
      Trailing(Element(Newline(f, depth), Pretty(e.value, f, depth), []), Newline(f, depth) + Newline(f, depth - 1))
    case More(e, rest) =>
      More(Element(Newline(f, depth), Pretty(e.value, f, depth), []), PrettyElements(rest, f, depth))
  }

  function PrettyMembers(ms: Members, f: Format, depth: int): Members {
    var m := ms.m;
    match ms
    case LastMember(_) =>
      LastMember(Member(Newline(f, depth), m.key, [],
                        Element([SPACE], Pretty(m.e.value, f, depth), Newline(f, depth - 1))))
    case MoreMembers(_, others) =>
      MoreMembers(Member(Newline(f, depth), m.key, [], Element([SPACE], Pretty(m.e.value, f, depth), [])),
                  PrettyMembers(others, f, depth))
  }

  function PrettyDocument(d: Document, f: Format): Document {
    Document([], Pretty(d.value, f, 0), d.after)
  }

  // ---------- the output is the yield of the laid out tree ----------

  lemma LaysBracketed(depth: int, open: byte, begin: Op, es: seq<Event>, body: bytes, close: byte, end: Op, f: Format)
    requires (open == LBRACKET && close == RBRACKET && begin.BeginArray? && end.EndArray?)
             || (open == LBRACE && close == RBRACE && begin.BeginObject? && end.EndObject?)
    requires OpensToken(es)
    requires Lays(Layout(false, depth + 1), es, f, body, Layout(false, depth + 1))
    ensures Lays(Layout(false, depth), [Event(open, begin)] + es + [Event(close, end)], f,
                 [open] + (Newline(f, depth + 1) + body + Newline(f, depth)) + [close], Layout(false, depth))
  {
    hide Newline, Indented, After;
    var lay, a, b := Layout(false, depth), [Event(open, begin)], [Event(close, end)];
    var inner := Newline(f, depth + 1) + body;
    LaysOne(lay, Event(open, begin), f);
    Wake(depth, es, f);
    Unit([open]);
    LaysThen(lay, a, f, [open], Layout(true, depth), es, inner, Layout(false, depth + 1));
    LaysOne(Layout(false, depth + 1), Event(close, end), f);
    Unit(Newline(f, depth) + [close]);
    LaysThen(lay, a + es, f, [open] + inner, Layout(false, depth + 1), b, Newline(f, depth) + [close], lay);
    Assoc([open], inner, Newline(f, depth) + [close]);
    Assoc(inner, Newline(f, depth), [close]);
    Assoc([open], inner + Newline(f, depth), [close]);
  }

  lemma LaysEmpty(depth: int, open: byte, begin: Op, g: bytes, close: byte, end: Op, f: Format)
    requires (open == LBRACKET && close == RBRACKET && begin.BeginArray? && end.EndArray?)
             || (open == LBRACE && close == RBRACE && begin.BeginObject? && end.EndObject?)
    ensures Lays(Layout(false, depth), [Event(open, begin)] + Mark(g, SkipSpace) + [Event(close, end)], f,
                 [open] + [] + [close], Layout(false, depth))
  {
    hide Newline, Indented, After;
    var lay, a, b := Layout(false, depth), [Event(open, begin)], [Event(close, end)];
    LaysOne(lay, Event(open, begin), f);
    Unit([open]);
    LaysGap(Layout(true, depth), g, f);
    LaysThen(lay, a, f, [open], Layout(true, depth), Mark(g, SkipSpace), [], Layout(true, depth));
    LaysOne(Layout(true, depth), Event(close, end), f);
    Unit([close]);
    LaysThen(lay, a + Mark(g, SkipSpace), f, [open] + [], Layout(true, depth), b, [close], lay);
  }

  lemma ValueOpensToken(v: Value, r: seq<Event>)
    requires WfValue(v)
    ensures OpensToken(EventsValue(v) + r)
  {
    ValueOpens(v, r);
  }

  lemma ElementOpensToken(e: Element, r: seq<Event>)
    requires WfElement(e)
    ensures OpensToken(EventsElement(e) + r)
  {
    ElementSplit(e, r);
    ValueOpensToken(e.value, Mark(e.after, SkipSpace) + r);
    GapOpens(e.before, EventsValue(e.value) + (Mark(e.after, SkipSpace) + r));
  }

  lemma ElementsOpenToken(es: Elements)
    requires WfElements(es)
    ensures OpensToken(EventsElements(es))
  {
    ElementsSplit(es, []);
    ElementOpensToken(es.e, Tail(es) + []);
    assert EventsElements(es) + [] == EventsElements(es);
  }

  lemma MembersOpenToken(ms: Members)
    requires WfMembers(ms)
    ensures OpensToken(EventsMembers(ms))
  {
    hide EventsElement;
    var m, r := ms.m, MemberTail(ms) + [];
    var k := Mark(m.colon, SkipSpace) + ([COLON_EVENT] + (EventsElement(m.e) + r));
    MembersSplit(ms, []);
    MemberSplit(m, r);
    assert EventsMembers(ms) + [] == EventsMembers(ms);
    assert (EventsLiteral(m.key) + k)[0] == EventsLiteral(m.key)[0];
    GapOpens(m.before, EventsLiteral(m.key) + k);
  }

  lemma {:induction false} LaysValue(v: Value, f: Format, depth: int)
    requires WfValue(v)
    ensures Lays(Layout(false, depth), EventsValue(v), f, YieldValue(Pretty(v, f, depth)), Layout(false, depth))
    decreases v
  {
    hide Newline, Indented, After, EventsElements, EventsMembers, PrettyElements, PrettyMembers;
    match v
    case Literal(text) =>
      LiteralLexes(text);
      LaysLiteral(depth, text, f);
    case EmptyArray(gap) =>
      LaysEmpty(depth, LBRACKET, BeginArray, gap, RBRACKET, EndArray, f);
    case Array(es) =>
      var body := LaysElements(es, f, depth + 1);
      ElementsOpenToken(es);
      LaysBracketed(depth, LBRACKET, BeginArray, EventsElements(es), body, RBRACKET, EndArray, f);
    case EmptyObject(spaces) =>
      LaysEmpty(depth, LBRACE, BeginObject, spaces, RBRACE, EndObject, f);
    case Object(ms) =>
      var body := LaysMembers(ms, f, depth + 1);
      MembersOpenToken(ms);
      LaysBracketed(depth, LBRACE, BeginObject, EventsMembers(ms), body, RBRACE, EndObject, f);
  }

  lemma {:induction false} LaysElement(e: Element, f: Format, depth: int)
    requires WfElement(e)
    ensures Lays(Layout(false, depth), EventsElement(e), f, YieldValue(Pretty(e.value, f, depth)), Layout(false, depth))
    decreases e
  {
    hide Indented, After, Pretty, YieldValue;
    var lay, text := Layout(false, depth), YieldValue(Pretty(e.value, f, depth));
    LaysGap(lay, e.before, f);
    LaysValue(e.value, f, depth);
    LaysThen(lay, Mark(e.before, SkipSpace), f, [], lay, EventsValue(e.value), text, lay);
    LaysGap(lay, e.after, f);
    LaysThen(lay, Mark(e.before, SkipSpace) + EventsValue(e.value), f, [] + text, lay, Mark(e.after, SkipSpace), [],
             lay);
    Unit(text);
  }

  lemma CommaText(nl: bytes, text: bytes, rest: bytes, last: bytes)
    ensures nl + (text + ([COMMA] + nl) + rest) + last == (nl + text) + [COMMA] + (nl + rest + last)
  {
  }

  lemma MemberYields(nl: bytes, key: bytes, e: Element)
    ensures YieldMember(Member(nl, key, [], e)) == nl + key + [] + [COLON] + (e.before + YieldValue(e.value) + e.after)
  {
  }

  lemma MemberText(nl: bytes, key: bytes, value: bytes, last: bytes)
    ensures nl + (key + [COLON] + [SPACE] + value) + last == nl + key + [] + [COLON] + ([SPACE] + value + last)
  {
  }

  lemma {:induction false} LaysElements(es: Elements, f: Format, depth: int) returns (body: bytes)
    requires WfElements(es)
    ensures Lays(Layout(false, depth), EventsElements(es), f, body, Layout(false, depth))
    ensures Newline(f, depth) + body + Newline(f, depth - 1) == YieldElements(PrettyElements(es, f, depth))
    decreases es
  {
    hide Indented, After, Pretty, YieldValue, Newline, EventsElement;
    var lay, nl, last := Layout(false, depth), Newline(f, depth), Newline(f, depth - 1);
    var text, comma := YieldValue(Pretty(es.e.value, f, depth)), [COMMA_EVENT];
    LaysElement(es.e, f, depth);
    if es.Last? {
      body := text;
    } else {
      LaysOne(lay, COMMA_EVENT, f);
      Unit([COMMA] + nl);
      LaysThen(lay, EventsElement(es.e), f, text, lay, comma, [COMMA] + nl, lay);
      var rest := [];
      if es.More? {
        rest := LaysElements(es.rest, f, depth);
        LaysThen(lay, EventsElement(es.e) + comma, f, text + ([COMMA] + nl), lay, EventsElements(es.rest), rest, lay);
      } else {
        LaysGap(lay, es.hole, f);
        LaysThen(lay, EventsElement(es.e) + comma, f, text + ([COMMA] + nl), lay, Mark(es.hole, SkipSpace), [], lay);
        Unit(nl);
      }
      body := text + ([COMMA] + nl) + rest;
      Unit(nl + text);
      CommaText(nl, text, rest, last);
    }
  }

  lemma {:induction false} LaysMember(m: Member, f: Format, depth: int)
    requires WfMember(m)
    ensures Lays(Layout(false, depth), EventsMember(m), f,
                 m.key + [COLON] + [SPACE] + YieldValue(Pretty(m.e.value, f, depth)), Layout(false, depth))
    decreases m
  {
    hide Indented, After, Pretty, YieldValue, EventsElement, EventsLiteral;
    var lay, text := Layout(false, depth), YieldValue(Pretty(m.e.value, f, depth));
    var a, k, b := Mark(m.before, SkipSpace), EventsLiteral(m.key), Mark(m.colon, SkipSpace);
    LexString(m.key);
    LaysGap(lay, m.before, f);
    LaysLiteral(depth, m.key, f);
    LaysThen(lay, a, f, [], lay, k, m.key, lay);
    LaysGap(lay, m.colon, f);
    LaysThen(lay, a + k, f, [] + m.key, lay, b, [], lay);
    LaysOne(lay, COLON_EVENT, f);
    Unit([COLON, SPACE]);
    LaysThen(lay, a + k + b, f, [] + m.key + [], lay, [COLON_EVENT], [COLON, SPACE], lay);
    LaysElement(m.e, f, depth);
    LaysThen(lay, a + k + b + [COLON_EVENT], f, [] + m.key + [] + [COLON, SPACE], lay, EventsElement(m.e), text, lay);
    assert [] + m.key + [] + [COLON, SPACE] == m.key + [COLON] + [SPACE];
  }

  lemma {:induction false} LaysMembers(ms: Members, f: Format, depth: int) returns (body: bytes)
    requires WfMembers(ms)
    ensures Lays(Layout(false, depth), EventsMembers(ms), f, body, Layout(false, depth))
    ensures Newline(f, depth) + body + Newline(f, depth - 1) == YieldMembers(PrettyMembers(ms, f, depth))
    decreases ms
  {
    hide Indented, After, Pretty, YieldValue, Newline, EventsMember;
    var lay, nl, last := Layout(false, depth), Newline(f, depth), Newline(f, depth - 1);
    var m, comma := ms.m, [MEMBER_COMMA];
    var value := YieldValue(Pretty(m.e.value, f, depth));
    var text := m.key + [COLON] + [SPACE] + value;
    LaysMember(m, f, depth);
    if ms.LastMember? {
      body := text;
      MemberText(nl, m.key, value, last);
      MemberYields(nl, m.key, Element([SPACE], Pretty(m.e.value, f, depth), last));
    } else {
      LaysOne(lay, MEMBER_COMMA, f);
      Unit([COMMA] + nl);
      LaysThen(lay, EventsMember(m), f, text, lay, comma, [COMMA] + nl, lay);
      var rest := LaysMembers(ms.others, f, depth);
      LaysThen(lay, EventsMember(m) + comma, f, text + ([COMMA] + nl), lay, EventsMembers(ms.others), rest, lay);
      body := text + ([COMMA] + nl) + rest;
      MemberText(nl, m.key, value, []);
      MemberYields(nl, m.key, Element([SPACE], Pretty(m.e.value, f, depth), []));
      Unit(nl + text);
      CommaText(nl, text, rest, last);
    }
  }

  // ---------- the results ----------

  /** The bytes `Indent` appends for an accepted text. */
  function Indent(x: bytes, f: Format): bytes {
    Indented(Trace(INIT, x), Layout(false, 0), f)
  }

  lemma {:induction false} LaysEnd(s: bytes, f: Format)
    requires IsSpaces(s)
    ensures Lays(Layout(false, 0), Mark(s, End), f, s, Layout(false, 0))
    decreases s
  {
    if s != [] {
      assert IsSpace(s[0]) && s == [s[0]] + s[1..];
      LaysEnd(s[1..], f);
    }
  }

  lemma IndentYields(d: Document, f: Format)
    requires WfDocument(d)
    ensures Indent(Yield(d), f) == Yield(PrettyDocument(d, f))
  {
    hide Indented, After, Pretty, EventsValue;
    var lay, text := Layout(false, 0), YieldValue(Pretty(d.value, f, 0));
    var a, b := Mark(d.before, SkipSpace), Mark(d.after, End);
    DocumentReads(d);
    LaysGap(lay, d.before, f);
    LaysValue(d.value, f, 0);
    LaysThen(lay, a, f, [], lay, EventsValue(d.value), text, lay);
    LaysEnd(d.after, f);
    LaysThen(lay, a + EventsValue(d.value), f, [] + text, lay, b, d.after, lay);
  }

  /** Prefix and indent of white space, as the documentation has in mind. */
  predicate Blank(f: Format) {
    IsSpaces(f.prefix) && IsSpaces(f.indent)
  }

  lemma {:induction false} RepeatSpaces(s: bytes, n: int)
    requires IsSpaces(s)
    ensures IsSpaces(Repeat(s, n))
    decreases n
  {
    if n > 0 {
      RepeatSpaces(s, n - 1);
    }
  }

  lemma NewlineSpaces(f: Format, depth: int)
    requires Blank(f)
    ensures IsSpaces(Newline(f, depth)) && IsGap(Newline(f, depth))
  {
    RepeatSpaces(f.indent, depth);
    SpacesAreGap(Newline(f, depth));
  }

  lemma {:induction false} PrettyValue(v: Value, f: Format, depth: int)
    requires WfValue(v) && Blank(f)
    ensures SaneValue(Pretty(v, f, depth)) && Meaning(Pretty(v, f, depth)) == Meaning(v)
    ensures WfValue(Pretty(v, f, depth)) <==> ClosedValue(v)
    decreases v
  {
    match v
    case Literal(_) =>
    case EmptyArray(_) =>
    case Array(es) => PrettyElementsAre(es, f, depth + 1);
    case EmptyObject(_) =>
    case Object(ms) => PrettyMembersAre(ms, map[], f, depth + 1);
  }

  lemma {:induction false} PrettyElementsAre(es: Elements, f: Format, depth: int)
    requires WfElements(es) && Blank(f)
    ensures SaneElements(PrettyElements(es, f, depth))
    ensures MeaningElements(PrettyElements(es, f, depth)) == MeaningElements(es)
    ensures WfElements(PrettyElements(es, f, depth)) <==> ClosedElements(es)
    decreases es
  {
    hide Newline, Pretty;
    NewlineSpaces(f, depth);
    NewlineSpaces(f, depth - 1);
    PrettyValue(es.e.value, f, depth);
    match es
    case Last(_) =>
    case Trailing(_, _) => SpacesAreGap(Newline(f, depth) + Newline(f, depth - 1));
    case More(_, rest) => PrettyElementsAre(rest, f, depth);
  }

  lemma {:induction false} PrettyMembersAre(ms: Members, fields: map<bytes, Json>, f: Format, depth: int)
    requires WfMembers(ms) && Blank(f)
    ensures SaneMembers(PrettyMembers(ms, f, depth))
    ensures MeaningMembers(PrettyMembers(ms, f, depth), fields) == MeaningMembers(ms, fields)
    ensures WfMembers(PrettyMembers(ms, f, depth)) <==> ClosedMembers(ms)
    decreases ms
  {
    hide Newline, Pretty, StringValue, IsString;
    var m := ms.m;
    NewlineSpaces(f, depth);
    NewlineSpaces(f, depth - 1);
    SpacesAreGap([SPACE]);
    assert WfMember(m) && WfElement(m.e);
    PrettyValue(m.e.value, f, depth);
    var p := PrettyMembers(ms, f, depth).m;
    assert SaneMember(p) && (WfMember(p) <==> ClosedValue(m.e.value)) by {
      assert SaneElement(p.e) && (WfElement(p.e) <==> ClosedValue(m.e.value));
    }
    if ms.MoreMembers? {
      PrettyMembersAre(ms.others, fields[StringValue(m.key) := Meaning(m.e.value)], f, depth);
    }
  }

  /** The indented text is accepted exactly when no array ends in a comma and a comment; it then means the same. */
  lemma IndentAccepted(d: Document, f: Format)
    requires WfDocument(d) && Blank(f)
    ensures IsJson(Indent(Yield(d), f)) <==> ClosedValue(d.value)
    ensures forall e: Document | WfDocument(e) && Yield(e) == Indent(Yield(d), f) ::
              Meaning(e.value) == Meaning(d.value)
  {
    var p := PrettyDocument(d, f);
    IndentYields(d, f);
    PrettyValue(d.value, f, 0);
    JsonIffWf(p);
    forall e: Document | WfDocument(e) && Yield(e) == Indent(Yield(d), f)
      ensures Meaning(e.value) == Meaning(d.value)
    {
      OneTree(e, p);
    }
  }

  // ---------- compacting the indented text ----------

  /** Both texts compact to the same tree, up to the bytes that comments leak. */
  lemma {:induction false} SameCompactValue(v: Value, f: Format, depth: int, html: bool)
    requires Blank(f) && WfValue(v)
    ensures var a, b := RestyleValue(v, Compacted(html)), RestyleValue(Pretty(v, f, depth), Compacted(html));
            |YieldValue(a)| == |YieldValue(b)| + LeakSizeValue(v, html) && (LeakSizeValue(v, html) == 0 ==> a == b)
    decreases v
  {
    match v
    case Literal(_) =>
    case EmptyArray(_) =>
    case Array(es) => SameCompactElements(es, f, depth + 1, html);
    case EmptyObject(spaces) => SpacesLeak(spaces, html);
    case Object(ms) => SameCompactMembers(ms, f, depth + 1, html);
  }

  lemma NewlineLeaksNothing(f: Format, depth: int, html: bool)
    requires Blank(f)
    ensures Leaks(Newline(f, depth), html) == []
    ensures Leaks(Newline(f, depth) + Newline(f, depth - 1), html) == []
  {
    NewlineSpaces(f, depth);
    NewlineSpaces(f, depth - 1);
    SpacesLeak(Newline(f, depth), html);
    SpacesLeak(Newline(f, depth) + Newline(f, depth - 1), html);
  }

  lemma {:induction false} SameCompactElements(es: Elements, f: Format, depth: int, html: bool)
    requires Blank(f) && WfElements(es)
    ensures var a, b := RestyleElements(es, Compacted(html)),
                        RestyleElements(PrettyElements(es, f, depth), Compacted(html));
            |YieldElements(a)| == |YieldElements(b)| + LeakSizeElements(es, html)
            && (LeakSizeElements(es, html) == 0 ==> a == b)
    decreases es
  {
    hide Newline, Pretty, Leaks;
    LeaksEmpty(html);
    NewlineLeaksNothing(f, depth, html);
    NewlineLeaksNothing(f, depth - 1, html);
    assert WfElement(es.e);
    SameCompactValue(es.e.value, f, depth, html);
    if es.More? {
      SameCompactElements(es.rest, f, depth, html);
    }
  }

  lemma LeaksEmpty(html: bool)
    ensures Leaks([], html) == [] && Leaks([SPACE], html) == []
  {
    SpacesLeak([SPACE], html);
  }

  /** One member, when its value is settled and the new gaps leak nothing. */
  lemma SameCompactMember(m: Member, p: Member, html: bool)
    requires p.key == m.key && Leaks(m.colon, html) == []
    requires Leaks(p.before, html) == Leaks(p.colon, html) == Leaks(p.e.before, html) == Leaks(p.e.after, html) == []
    requires var a, b := RestyleValue(m.e.value, Compacted(html)), RestyleValue(p.e.value, Compacted(html));
             |YieldValue(a)| == |YieldValue(b)| + LeakSizeValue(m.e.value, html)
             && (LeakSizeValue(m.e.value, html) == 0 ==> a == b)
    ensures var a, b := RestyleMember(m, Compacted(html)), RestyleMember(p, Compacted(html));
            var leaked := |Leaks(m.before, html)| + |Leaks(m.colon, html)| + LeakSizeElement(m.e, html);
            |YieldMember(a)| == |YieldMember(b)| + leaked && (leaked == 0 ==> a == b)
  {
    hide Leaks, RestyleValue, YieldValue, LeakSizeValue;
  }

  lemma {:induction false} SameCompactMembers(ms: Members, f: Format, depth: int, html: bool)
    requires Blank(f) && WfMembers(ms)
    ensures var a, b := RestyleMembers(ms, Compacted(html)),
                        RestyleMembers(PrettyMembers(ms, f, depth), Compacted(html));
            |YieldMembers(a)| == |YieldMembers(b)| + LeakSizeMembers(ms, html)
            && (LeakSizeMembers(ms, html) == 0 ==> a == b)
    decreases ms
  {
    hide Newline, Pretty, Leaks, IsString;
    LeaksEmpty(html);
    NewlineLeaksNothing(f, depth, html);
    NewlineLeaksNothing(f, depth - 1, html);
    assert WfMember(ms.m) && WfElement(ms.m.e);
    SpacesLeak(ms.m.colon, html);
    SameCompactValue(ms.m.e.value, f, depth, html);
    SameCompactMember(ms.m, PrettyMembers(ms, f, depth).m, html);
    hide RestyleMember, YieldMember, LeakSizeElement;
    if ms.MoreMembers? {
      SameCompactMembers(ms.others, f, depth, html);
    }
  }

  /** Compacting the indented text is compacting the text itself, exactly when no comment leaks. */
  lemma IndentThenCompact(d: Document, f: Format, html: bool)
    requires WfDocument(d) && Blank(f) && ClosedValue(d.value)
    ensures Compact(Indent(Yield(d), f), html) == Compact(Yield(d), html) <==> LeakSize(d, html) == 0
  {
    hide Leaks;
    var p := PrettyDocument(d, f);
    IndentYields(d, f);
    PrettyValue(d.value, f, 0);
    SpacesAreGap([]);
    CompactYields(p, html);
    CompactYields(d, html);
    SameCompactValue(d.value, f, 0, html);
    LeaksEmpty(html);
    SpacesLeak(d.after, html);
  }
}
