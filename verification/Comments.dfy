/** What comments change: without them the printers keep every promise, and three texts show where they do not. */
module Comments {
  import opened Bytes
  import opened Scanning
  import opened Grammar
  import opened Recognition
  import opened Unambiguous
  import opened Escaping
  import opened Trees
  import opened CompactResults
  import opened Indenting
  import opened Cuts
  import opened DecodeText

  /** The scanner skips nothing but white space. */
  predicate NoComments(es: seq<Event>) {
    forall e | e in es :: e.op.SkipSpace? ==> IsSpace(e.c)
  }

  lemma NoCommentsParts(a: seq<Event>, b: seq<Event>)
    ensures NoComments(a + b) <==> NoComments(a) && NoComments(b)
  {
    if NoComments(a + b) {
      assert forall e | e in a :: e in a + b;
      assert forall e | e in b :: e in a + b;
    }
  }

  lemma {:induction false} PlainGap(g: bytes)
    requires NoComments(Mark(g, SkipSpace))
    ensures IsSpaces(g) && forall html :: Leaks(g, html) == []
    decreases g
  {
    if g != [] {
      var m := Mark(g, SkipSpace);
      assert m[0] == Event(g[0], SkipSpace) && m[0] in m;
      NoCommentsParts([m[0]], Mark(g[1..], SkipSpace));
      PlainGap(g[1..]);
    }
    forall html: bool ensures Leaks(g, html) == [] {
      SpacesLeak(g, html);
    }
  }

  lemma {:induction false} PlainValue(v: Value)
    requires WfValue(v) && NoComments(EventsValue(v))
    ensures ClosedValue(v) && forall html :: LeakSizeValue(v, html) == 0
    decreases v
  {
    match v
    case Literal(_) =>
    case EmptyArray(gap) =>
      PlainInside(Event(LBRACKET, BeginArray), Mark(gap, SkipSpace), Event(RBRACKET, EndArray));
      PlainGap(gap);
    case Array(es) =>
      PlainInside(Event(LBRACKET, BeginArray), EventsElements(es), Event(RBRACKET, EndArray));
      PlainElements(es);
    case EmptyObject(spaces) =>
      forall html: bool ensures Leaks(spaces, html) == [] {
        SpacesLeak(spaces, html);
      }
    case Object(ms) =>
      PlainInside(Event(LBRACE, BeginObject), EventsMembers(ms), Event(RBRACE, EndObject));
      PlainMembers(ms);
  }

  lemma PlainInside(a: Event, es: seq<Event>, b: Event)
    requires NoComments([a] + es + [b])
    ensures NoComments(es)
  {
    NoCommentsParts([a] + es, [b]);
    NoCommentsParts([a], es);
  }

  lemma {:induction false} PlainElement(e: Element)
    requires WfElement(e) && NoComments(EventsElement(e))
    ensures ClosedValue(e.value) && forall html :: LeakSizeElement(e, html) == 0
    decreases e
  {
    NoCommentsParts(Mark(e.before, SkipSpace) + EventsValue(e.value), Mark(e.after, SkipSpace));
    NoCommentsParts(Mark(e.before, SkipSpace), EventsValue(e.value));
    PlainGap(e.before);
    PlainValue(e.value);
    PlainGap(e.after);
  }

  lemma {:induction false} PlainElements(es: Elements)
    requires WfElements(es) && NoComments(EventsElements(es))
    ensures ClosedElements(es) && forall html :: LeakSizeElements(es, html) == 0
    decreases es
  {
    hide NoComments;
    match es
    case Last(e) => PlainElement(e);
    case Trailing(e, hole) =>
      NoCommentsParts(EventsElement(e) + [COMMA_EVENT], Mark(hole, SkipSpace));
      PlainGap(hole);
    case More(e, rest) =>
      NoCommentsParts(EventsElement(e) + [COMMA_EVENT], EventsElements(rest));
      NoCommentsParts(EventsElement(e), [COMMA_EVENT]);
      PlainElement(e);
      PlainElements(rest);
  }

  lemma {:induction false} PlainMember(m: Member)
    requires WfMember(m) && NoComments(EventsMember(m))
    ensures ClosedValue(m.e.value) && IsSpaces(m.before)
    ensures forall html :: LeakSizeElement(m.e, html) == 0 && Leaks(m.before, html) == [] && Leaks(m.colon, html) == []
    decreases m
  {
    var a, b, c := Mark(m.before, SkipSpace), EventsLiteral(m.key), Mark(m.colon, SkipSpace);
    hide NoComments;
    NoCommentsParts(a + b + c + [COLON_EVENT], EventsElement(m.e));
    NoCommentsParts(a + b + c, [COLON_EVENT]);
    NoCommentsParts(a + b, c);
    NoCommentsParts(a, b);
    PlainGap(m.before);
    PlainGap(m.colon);
    PlainElement(m.e);
  }

  lemma {:induction false} PlainMembers(ms: Members)
    requires WfMembers(ms) && NoComments(EventsMembers(ms))
    ensures ClosedMembers(ms) && forall html :: LeakSizeMembers(ms, html) == 0
    decreases ms
  {
    hide NoComments;
    match ms
    case LastMember(m) => PlainMember(m);
    case MoreMembers(m, others) =>
      NoCommentsParts(EventsMember(m) + [MEMBER_COMMA], EventsMembers(others));
      NoCommentsParts(EventsMember(m), [MEMBER_COMMA]);
      PlainMember(m);
      PlainMembers(others);
  }

  lemma PlainDocument(d: Document)
    requires WfDocument(d) && NoComments(Trace(INIT, Yield(d)))
    ensures ClosedValue(d.value) && forall html :: LeakSize(d, html) == 0 && Neat(d, Compacted(html))
  {
    hide NoComments, Trace, Run;
    DocumentReads(d);
    NoCommentsParts(Mark(d.before, SkipSpace) + EventsValue(d.value), Mark(d.after, End));
    NoCommentsParts(Mark(d.before, SkipSpace), EventsValue(d.value));
    PlainGap(d.before);
    PlainValue(d.value);
    forall html: bool ensures LeakSize(d, html) == 0 && Neat(d, Compacted(html)) {
      SpacesLeak(d.after, html);
      NeatIff(d, html);
    }
  }

  /** What an accepted text means is unique. */
  ghost predicate SameMeaning(x: bytes, y: bytes) {
    forall d: Document, e: Document | WfDocument(d) && Yield(d) == x && WfDocument(e) && Yield(e) == y ::
      Meaning(d.value) == Meaning(e.value)
  }

  /** On an accepted text without comments every printer prints an accepted text of the same meaning. */
  lemma PrintersKeepMeaning(x: bytes, f: Format, html: bool)
    requires IsJson(x) && NoComments(Trace(INIT, x)) && Blank(f)
    ensures IsJson(Compact(x, html)) && SameMeaning(x, Compact(x, html))
    ensures IsJson(Indent(x, f)) && SameMeaning(x, Indent(x, f))
    ensures IsJson(HtmlEscape(x)) && SameMeaning(x, HtmlEscape(x))
  {
    hide NoComments, WfDocument, Yield, Compact, Indent, HtmlEscape, Meaning, Trace, Blank, Neat;
    var c: Document :| WfDocument(c) && Yield(c) == x;
    PlainDocument(c);
    CompactAccepted(c, html);
    CompactMeans(c, html);
    IndentAccepted(c, f);
    HtmlEscapeMeans(c);
    forall d: Document | WfDocument(d) && Yield(d) == x ensures d == c {
      OneTree(d, c);
    }
  }

  /** The laws that relate the printers, on accepted texts without comments. */
  lemma PrintersCommute(x: bytes, f: Format, html: bool)
    requires IsJson(x) && NoComments(Trace(INIT, x)) && Blank(f)
    ensures Compact(Compact(x, html), html) == Compact(x, html)
    ensures Compact(Indent(x, f), html) == Compact(x, html)
    ensures Compact(HtmlEscape(x), false) == Compact(x, true)
  {
    hide NoComments, WfDocument, Yield, Compact, Indent, HtmlEscape, Trace, Blank, Neat;
    var c: Document :| WfDocument(c) && Yield(c) == x;
    PlainDocument(c);
    CompactMeans(c, html);
    IndentThenCompact(c, f, html);
    EscapeThenCompact(c);
  }

  // ---------- texts with comments for which the printers fail ----------

  const ONE: byte := 0x31
  const SLASHES: bytes := [SLASH, SLASH, NEWLINE]

  /** `[1,//` newline `]` */
  const HOLE := Document([], Array(Trailing(Element([], Literal([ONE]), []), SLASHES)), [])

  lemma OneIsNumber()
    ensures IsLiteral([ONE])
  {
    var n := Number([], [ONE], [], []);
    assert n.Text() == [ONE];
    assert n.Valid();
  }

  lemma SlashesAreGap()
    ensures IsGap(SLASHES) && !IsSpaces(SLASHES)
  {
    assert SLASHES[2..] == [NEWLINE] && [NEWLINE][1..] == [];
    assert SLASH in SLASHES;
  }

  lemma HoleText(e: Element, es: Elements)
    requires e == Element([], Literal([ONE]), []) && es == Trailing(e, SLASHES)
    ensures Yield(Document([], Array(es), [])) == [LBRACKET, ONE, COMMA] + SLASHES + [RBRACKET]
  {
    var one: bytes := [ONE];
    Unit(one);
    assert YieldValue(e.value) == one;
    assert YieldElement(e) == one;
    assert YieldElements(es) == one + [COMMA] + SLASHES;
    var v := Array(es);
    assert YieldValue(v) == [LBRACKET] + (one + [COMMA] + SLASHES) + [RBRACKET];
    Unit(YieldValue(v));
    assert Yield(Document([], v, [])) == YieldValue(v);
  }

  lemma HoleIsDocument()
    ensures WfDocument(HOLE) && Yield(HOLE) == [LBRACKET, ONE, COMMA] + SLASHES + [RBRACKET]
    ensures !ClosedValue(HOLE.value) && forall html :: !Neat(HOLE, Compacted(html))
  {
    OneIsNumber();
    SlashesAreGap();
    NothingIsSpaces();
    hide IsLiteral, IsGap, IsSpaces;
    var e := Element([], Literal([ONE]), []);
    var es := Trailing(e, SLASHES);
    assert WfElement(e) by {
      assert WfValue(Literal([ONE]));
    }
    assert WfElements(es);
    assert WfValue(Array(es));
    HoleText(e, es);
    hide WfElement, WfElements, WfValue;
    assert WfDocument(HOLE);
    HoleIsOpen(e, es);
  }

  lemma HoleIsOpen(e: Element, es: Elements)
    requires es == Trailing(e, SLASHES)
    ensures !ClosedValue(Array(es)) && forall html :: !NeatValue(Array(es), Compacted(html))
  {
    assert !ClosedElements(es);
    forall html: bool ensures !NeatValue(Array(es), Compacted(html)) {
      assert !NeatElements(es, Compacted(html));
    }
  }

  /** An array that ends in a comma and a comment is accepted, but neither printer's output is. */
  lemma HoleBreaksPrinters(f: Format, html: bool)
    requires Blank(f)
    ensures IsJson(Yield(HOLE)) && !IsJson(Compact(Yield(HOLE), html)) && !IsJson(Indent(Yield(HOLE), f))
  {
    hide WfDocument, Yield, ClosedValue, Neat, Blank, Compact, Indent;
    HoleIsDocument();
    CompactAccepted(HOLE, html);
    IndentAccepted(HOLE, f);
  }

  lemma NothingIsSpaces()
    ensures IsSpaces([]) && IsGap([])
  {
  }

  /** A comment that holds U+2028 in UTF-8, and then a value. */
  const LEAK: bytes := [SLASH, SLASH, 0xE2, 0x80, 0xA8, NEWLINE]

  lemma CommentCons(c: byte, s: bytes)
    requires c != NEWLINE && IsComment(s)
    ensures IsComment([c] + s)
  {
    assert ([c] + s)[1..] == s;
  }

  lemma LeakIsGap()
    ensures IsGap(LEAK)
  {
    assert IsComment([NEWLINE]) by { assert [NEWLINE][1..] == []; }
    CommentCons(0xA8, [NEWLINE]);
    CommentCons(0x80, [0xA8] + [NEWLINE]);
    CommentCons(0xE2, [0x80] + ([0xA8] + [NEWLINE]));
    assert LEAK[2..] == [0xE2] + ([0x80] + ([0xA8] + [NEWLINE]));
  }

  lemma LeakLeaks(html: bool)
    ensures Leaks(LEAK, html) != []
  {
    assert EscapeAt(LEAK, html).None? && EscapeAt(LEAK[1..], html).None?;
    assert LEAK[1..][1..] == LEAK[2..];
    assert AtSeparator(LEAK[2..]);
    assert EscapeAt(LEAK[2..], html).Some?;
    assert Leaks(LEAK, html) == Leaks(LEAK[1..], html) == Leaks(LEAK[2..], html);
  }

  /** Compaction prints a separator inside a comment as an escape, even when it is not asked to escape. */
  lemma LeakBreaksCompact(html: bool)
    ensures var x := LEAK + [ONE]; IsJson(x) && !IsJson(Compact(x, html))
  {
    var d := Document(LEAK, Literal([ONE]), []);
    OneIsNumber();
    LeakIsGap();
    LeakLeaks(html);
    Unit(LEAK + [ONE]);
    hide IsLiteral, IsGap, Leaks, Compact;
    assert WfDocument(d) && Yield(d) == LEAK + [ONE];
    CompactAccepted(d, html);
  }

  /** A stray bracket after a comment makes `nextValue` and the stream decoder return the comment as a value. */
  lemma StrayCommentIsCut(r: bytes)
    ensures Cut(INIT, SLASHES + ([RBRACKET] + r)) == Some(|SLASHES|) && !IsJson(SLASHES)
  {
    SlashesAreGap();
    StrayCut(SLASHES, [RBRACKET] + r);
    GapIsNoJson(SLASHES);
  }

  /** What is cut off is a text exactly when the input does not begin with comments before a stray bracket. */
  lemma CutIsText(s: bytes, n: nat)
    requires Cut(INIT, s) == Some(n)
    ensures IsJson(s[..n]) <==> !exists k: nat | k <= |s| :: Stray(s[..k], s[k..])
  {
    hide Cut, IsGap, IsSpaces;
    CutText(s, n);
    if !IsJson(s[..n]) {
      assert Stray(s[..n], s[n..]);
    }
    forall k: nat | k <= |s| && Stray(s[..k], s[k..]) ensures !IsJson(s[..n]) {
      StrayCut(s[..k], s[k..]);
      TakeDrop(s, k);
      GapIsNoJson(s[..k]);
    }
  }
}
