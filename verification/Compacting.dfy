/** `compact` and `HTMLEscape` rewrite the tree of their input. */
module Compacting {
  import opened Bytes
  import opened Scanning
  import opened Grammar
  import opened Recognition
  import opened Utf8
  import opened Escaping
  import opened Trees

  function Text(es: seq<Event>): (s: bytes)
    ensures |s| == |es|
  {
    seq(|es|, i requires 0 <= i < |es| => es[i].c)
  }

  /** Does the style drop a byte that the scanner took with `op`? */
  predicate Drops(style: Style, op: Op) {
    style.Compacted? && Skips(op)
  }

  /** The output for a list of events: escapes first, and then the bytes that belong to tokens. */
  function Styled(es: seq<Event>, style: Style): bytes
    decreases |es|
  {
    if es == [] then []
    else match EscapeAt(Text(es), Html(style))
      case Some(p) => p.out + Styled(es[p.size..], style)
      case None => (if Drops(style, es[0].op) then [] else [es[0].c]) + Styled(es[1..], style)
  }

  predicate AsciiHead(es: seq<Event>) {
    es == [] || es[0].c < RUNE_SELF
  }

  lemma TextSplit(a: seq<Event>, b: seq<Event>)
    ensures Text(a + b) == Text(a) + Text(b)
  {
  }

  lemma TextDrop(es: seq<Event>, n: nat)
    requires n <= |es|
    ensures Text(es[n..]) == Text(es)[n..]
  {
  }

  lemma EscapeAtSplit(a: seq<Event>, b: seq<Event>, html: bool)
    requires a != [] && AsciiHead(b)
    ensures EscapeAt(Text(a + b), html) == EscapeAt(Text(a), html)
  {
    TextSplit(a, b);
    assert b != [] ==> Text(b)[0] == b[0].c;
  }

  /** How many events the head of the output takes, and the head. */
  function HeadSize(es: seq<Event>, style: Style): (n: nat)
    requires es != []
    ensures 1 <= n <= |es|
  {
    match EscapeAt(Text(es), Html(style))
    case Some(p) => p.size
    case None => 1
  }

  function HeadOut(es: seq<Event>, style: Style): bytes
    requires es != []
  {
    match EscapeAt(Text(es), Html(style))
    case Some(p) => p.out
    case None => if Drops(style, es[0].op) then [] else [es[0].c]
  }

  lemma StyledCons(es: seq<Event>, style: Style)
    requires es != []
    ensures Styled(es, style) == HeadOut(es, style) + Styled(es[HeadSize(es, style)..], style)
  {
  }

  lemma StyledNothing(style: Style)
    ensures Styled([], style) == []
  {
  }

  lemma HeadSplit(a: seq<Event>, b: seq<Event>, style: Style)
    requires a != [] && AsciiHead(b)
    ensures HeadSize(a + b, style) == HeadSize(a, style) && HeadOut(a + b, style) == HeadOut(a, style)
  {
    EscapeAtSplit(a, b, Html(style));
  }

  lemma {:induction false} StyledSplit(a: seq<Event>, b: seq<Event>, style: Style)
    requires AsciiHead(b)
    ensures Styled(a + b, style) == Styled(a, style) + Styled(b, style)
    decreases |a|
  {
    hide Styled, HeadSize, HeadOut;
    if a == [] {
      assert a + b == b;
      StyledNothing(style);
      Unit(Styled(b, style));
    } else {
      var n := HeadSize(a, style);
      StyledCons(a, style);
      StyledCons(a + b, style);
      HeadSplit(a, b, style);
      assert (a + b)[n..] == a[n..] + b;
      StyledSplit(a[n..], b, style);
      Assoc(HeadOut(a, style), Styled(a[n..], style), Styled(b, style));
    }
  }

  // ---------- pieces ----------

  lemma {:induction false} MarkText(s: bytes, op: Op)
    ensures |Mark(s, op)| == |s| && Text(Mark(s, op)) == s
    ensures forall e | e in Mark(s, op) :: e.op == op
    decreases s
  {
    if s != [] {
      MarkText(s[1..], op);
      TextSplit([Event(s[0], op)], Mark(s[1..], op));
      assert Text([Event(s[0], op)]) == [s[0]];
    }
  }

  /** Events that are kept: plain escaping. */
  lemma {:induction false} StyledKept(es: seq<Event>, style: Style)
    requires forall e | e in es :: !Drops(style, e.op)
    ensures Styled(es, style) == Escaped(Text(es), Html(style))
    decreases |es|
  {
    if es != [] {
      var n := EscapePiece(Text(es), Html(style)).size;
      assert es[0] in es && es[0].c == Text(es)[0];
      TextDrop(es, n);
      StyledKept(es[n..], style);
    }
  }

  /** Events that are dropped: only the escapes are left. */
  lemma {:induction false} StyledDropped(es: seq<Event>, style: Style)
    requires style.Compacted? && forall e | e in es :: Skips(e.op)
    ensures Styled(es, style) == Leaks(Text(es), style.html)
    decreases |es|
  {
    if es != [] {
      var p := EscapeAt(Text(es), style.html);
      var n := if p.Some? then p.value.size else 1;
      assert es[0] in es;
      TextDrop(es, n);
      StyledDropped(es[n..], style);
    }
  }

  lemma StyledGap(g: bytes, op: Op, style: Style)
    requires Skips(op)
    ensures Styled(Mark(g, op), style) == RestyleGap(g, style)
  {
    MarkText(g, op);
    if style.Compacted? {
      StyledDropped(Mark(g, op), style);
    } else {
      StyledKept(Mark(g, op), style);
    }
  }

  lemma StyledLiteral(text: bytes, style: Style)
    requires text != []
    ensures Styled(EventsLiteral(text), style) == RestyleText(text, style)
  {
    var first, rest := [Event(text[0], BeginLiteral)], Mark(text[1..], Continue);
    MarkText(text[1..], Continue);
    TextSplit(first, rest);
    assert Text(first) == [text[0]] && Text(first + rest) == text;
    StyledKept(first + rest, style);
  }

  lemma StyledPunctuation(c: byte, op: Op, style: Style)
    requires Inert(c) && !Skips(op)
    ensures Styled([Event(c, op)], style) == [c]
  {
    assert Text([Event(c, op)]) == [c];
    assert Styled([Event(c, op)][1..], style) == [];
  }

  // ---------- heads ----------

  lemma GapHead(g: bytes, op: Op)
    requires IsGap(g)
    ensures AsciiHead(Mark(g, op))
  {
  }

  lemma ValueHead(v: Value)
    requires WfValue(v)
    ensures EventsValue(v) != [] && AsciiHead(EventsValue(v))
  {
    if v.Literal? {
      LiteralLexes(v.text);
    }
  }

  lemma ElementHead(e: Element)
    requires WfElement(e)
    ensures EventsElement(e) != [] && AsciiHead(EventsElement(e))
  {
    GapHead(e.before, SkipSpace);
    ValueHead(e.value);
    MarkText(e.before, SkipSpace);
  }

  lemma ElementsHead(es: Elements)
    requires WfElements(es)
    ensures AsciiHead(EventsElements(es))
  {
    ElementHead(es.e);
  }

  lemma MembersHead(ms: Members)
    requires WfMembers(ms)
    ensures AsciiHead(EventsMembers(ms))
  {
    var m := ms.m;
    GapHead(m.before, SkipSpace);
    MarkText(m.before, SkipSpace);
    assert EventsMember(m)[0] == (Mark(m.before, SkipSpace) + EventsLiteral(m.key))[0];
  }

  // ---------- the output is the yield of the rewritten tree ----------

  lemma StyledBracketed(open: byte, begin: Op, es: seq<Event>, close: byte, end: Op, style: Style)
    requires Inert(open) && Inert(close) && !Skips(begin) && !Skips(end) && AsciiHead(es)
    ensures Styled([Event(open, begin)] + es + [Event(close, end)], style) == [open] + Styled(es, style) + [close]
  {
    hide Styled;
    StyledSplit([Event(open, begin)] + es, [Event(close, end)], style);
    StyledSplit([Event(open, begin)], es, style);
    StyledPunctuation(open, begin, style);
    StyledPunctuation(close, end, style);
  }

  lemma {:induction false} StyledValue(v: Value, style: Style)
    requires WfValue(v)
    ensures Styled(EventsValue(v), style) == YieldValue(RestyleValue(v, style))
    decreases v
  {
    hide Styled;
    match v
    case Literal(text) =>
      LiteralLexes(text);
      StyledLiteral(text, style);
    case EmptyArray(gap) =>
      StyledGap(gap, SkipSpace, style);
      GapHead(gap, SkipSpace);
      StyledBracketed(LBRACKET, BeginArray, Mark(gap, SkipSpace), RBRACKET, EndArray, style);
    case Array(es) =>
      StyledElements(es, style);
      ElementsHead(es);
      StyledBracketed(LBRACKET, BeginArray, EventsElements(es), RBRACKET, EndArray, style);
    case EmptyObject(spaces) =>
      StyledGap(spaces, SkipSpace, style);
      SpacesAreGap(spaces);
      GapHead(spaces, SkipSpace);
      StyledBracketed(LBRACE, BeginObject, Mark(spaces, SkipSpace), RBRACE, EndObject, style);
    case Object(ms) =>
      StyledMembers(ms, style);
      MembersHead(ms);
      StyledBracketed(LBRACE, BeginObject, EventsMembers(ms), RBRACE, EndObject, style);
  }

  lemma {:induction false} StyledElement(e: Element, style: Style)
    requires WfElement(e)
    ensures Styled(EventsElement(e), style) == YieldElement(RestyleElement(e, style))
    decreases e
  {
    hide Styled;
    var before, value, after := Mark(e.before, SkipSpace), EventsValue(e.value), Mark(e.after, SkipSpace);
    GapHead(e.after, SkipSpace);
    ValueHead(e.value);
    StyledSplit(before + value, after, style);
    StyledSplit(before, value, style);
    StyledGap(e.before, SkipSpace, style);
    StyledGap(e.after, SkipSpace, style);
    StyledValue(e.value, style);
  }

  lemma {:induction false} StyledElements(es: Elements, style: Style)
    requires WfElements(es)
    ensures Styled(EventsElements(es), style) == YieldElements(RestyleElements(es, style))
    decreases es
  {
    hide Styled;
    var comma := [Event(COMMA, ArrayValueDone)];
    StyledElement(es.e, style);
    StyledPunctuation(COMMA, ArrayValueDone, style);
    StyledSplit(EventsElement(es.e), comma, style);
    match es
    case Last(_) =>
    case Trailing(_, hole) =>
      GapHead(hole, SkipSpace);
      StyledGap(hole, SkipSpace, style);
      StyledSplit(EventsElement(es.e) + comma, Mark(hole, SkipSpace), style);
    case More(_, rest) =>
      ElementsHead(rest);
      StyledElements(rest, style);
      StyledSplit(EventsElement(es.e) + comma, EventsElements(rest), style);
  }

  lemma {:induction false} StyledMember(m: Member, style: Style)
    requires WfMember(m)
    ensures Styled(EventsMember(m), style) == YieldMember(RestyleMember(m, style))
    decreases m
  {
    hide Styled;
    var before, key, colon := Mark(m.before, SkipSpace), EventsLiteral(m.key), Mark(m.colon, SkipSpace);
    var mark := [Event(COLON, ObjectKeyDone)];
    SpacesAreGap(m.colon);
    GapHead(m.colon, SkipSpace);
    ElementHead(m.e);
    StyledSplit(before, key, style);
    StyledSplit(before + key, colon, style);
    StyledSplit(before + key + colon, mark, style);
    StyledSplit(before + key + colon + mark, EventsElement(m.e), style);
    StyledGap(m.before, SkipSpace, style);
    StyledLiteral(m.key, style);
    StyledGap(m.colon, SkipSpace, style);
    StyledPunctuation(COLON, ObjectKeyDone, style);
    StyledElement(m.e, style);
  }

  lemma {:induction false} StyledMembers(ms: Members, style: Style)
    requires WfMembers(ms)
    ensures Styled(EventsMembers(ms), style) == YieldMembers(RestyleMembers(ms, style))
    decreases ms
  {
    hide Styled;
    StyledMember(ms.m, style);
    if ms.MoreMembers? {
      var comma := [Event(COMMA, ObjectValueDone)];
      StyledPunctuation(COMMA, ObjectValueDone, style);
      MembersHead(ms.others);
      StyledSplit(EventsMember(ms.m), comma, style);
      StyledSplit(EventsMember(ms.m) + comma, EventsMembers(ms.others), style);
      StyledMembers(ms.others, style);
    }
  }

  /** Every accepted text, comments included, is rewritten by rewriting its tree. */
  lemma StyledDocument(d: Document, style: Style)
    requires WfDocument(d)
    ensures Styled(Events(d), style) == Yield(Restyle(d, style))
  {
    hide Styled;
    var before, value, after := Mark(d.before, SkipSpace), EventsValue(d.value), Mark(d.after, End);
    SpacesAreGap(d.after);
    GapHead(d.after, End);
    ValueHead(d.value);
    StyledSplit(before + value, after, style);
    StyledSplit(before, value, style);
    StyledGap(d.before, SkipSpace, style);
    StyledGap(d.after, End, style);
    StyledValue(d.value, style);
  }
}
