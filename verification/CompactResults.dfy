/** What `compact` and `HTMLEscape` do to every accepted text, comments included. */
module CompactResults {
  import opened Bytes
  import opened Scanning
  import opened Grammar
  import opened Recognition
  import opened Escaping
  import opened Trees
  import opened Compacting
  import opened Unambiguous
  import opened Rejection

  /** The bytes `compact` appends for an accepted text. */
  function Compact(x: bytes, html: bool): bytes {
    Styled(Trace(INIT, x), Compacted(html))
  }

  /** The bytes `HTMLEscape` appends. */
  function HtmlEscape(x: bytes): bytes {
    Escaped(x, true)
  }

  lemma CompactYields(d: Document, html: bool)
    requires WfDocument(d)
    ensures Compact(Yield(d), html) == Yield(Restyle(d, Compacted(html)))
  {
    DocumentReads(d);
    StyledDocument(d, Compacted(html));
  }

  lemma {:induction false} TraceText(q: Conf, s: bytes)
    ensures Text(Trace(q, s)) == s
    decreases s
  {
    if s != [] {
      var next := Trans(q, s[0]).next;
      TraceText(next, s[1..]);
      TextSplit([Event(s[0], Trans(q, s[0]).op)], Trace(next, s[1..]));
      assert Text([Event(s[0], Trans(q, s[0]).op)]) == [s[0]];
    }
  }

  lemma HtmlEscapeYields(d: Document)
    requires WfDocument(d)
    ensures HtmlEscape(Yield(d)) == Yield(Restyle(d, HtmlEscaped))
  {
    DocumentReads(d);
    TraceText(INIT, Yield(d));
    StyledKept(Events(d), HtmlEscaped);
    StyledDocument(d, HtmlEscaped);
  }

  /** `HTMLEscape` keeps every accepted text accepted, with the same meaning. */
  lemma HtmlEscapeMeans(d: Document)
    requires WfDocument(d)
    ensures IsJson(HtmlEscape(Yield(d)))
    ensures forall e: Document | WfDocument(e) && Yield(e) == HtmlEscape(Yield(d)) ::
              Meaning(e.value) == Meaning(d.value)
  {
    HtmlEscapeYields(d);
    var h := Restyle(d, HtmlEscaped);
    NeatHtmlValue(d.value);
    RestyledDocument(d, HtmlEscaped);
    forall e: Document | WfDocument(e) && Yield(e) == HtmlEscape(Yield(d))
      ensures Meaning(e.value) == Meaning(d.value)
    {
      OneTree(e, h);
    }
  }

  lemma {:induction false} NeatHtmlValue(v: Value)
    ensures NeatValue(v, HtmlEscaped)
    decreases v
  {
    if v.Array? {
      NeatHtmlElements(v.elements);
    } else if v.Object? {
      NeatHtmlMembers(v.members);
    }
  }

  lemma {:induction false} NeatHtmlElements(es: Elements)
    ensures NeatElements(es, HtmlEscaped)
    decreases es
  {
    NeatHtmlValue(es.e.value);
    if es.More? {
      NeatHtmlElements(es.rest);
    }
  }

  lemma {:induction false} NeatHtmlMembers(ms: Members)
    ensures NeatMembers(ms, HtmlEscaped)
    decreases ms
  {
    NeatHtmlValue(ms.m.e.value);
    if ms.MoreMembers? {
      NeatHtmlMembers(ms.others);
    }
  }

  // ---------- the results ----------

  lemma {:induction false} RestyledSaneValue(v: Value, html: bool)
    requires WfValue(v)
    ensures SaneValue(RestyleValue(v, Compacted(html)))
    decreases v
  {
    match v
    case Literal(text) => EscapedLiteral(text, html);
    case EmptyArray(gap) => LeaksHead(gap, html);
    case Array(es) => RestyledSaneElements(es, html);
    case EmptyObject(spaces) => SpacesLeak(spaces, html);
    case Object(ms) => RestyledSaneMembers(ms, html);
  }

  lemma {:induction false} RestyledSaneElement(e: Element, html: bool)
    requires WfElement(e)
    ensures SaneElement(RestyleElement(e, Compacted(html)))
    decreases e
  {
    LeaksHead(e.before, html);
    RestyledSaneValue(e.value, html);
    LeaksHead(e.after, html);
  }

  lemma {:induction false} RestyledSaneElements(es: Elements, html: bool)
    requires WfElements(es)
    ensures SaneElements(RestyleElements(es, Compacted(html)))
    decreases es
  {
    RestyledSaneElement(es.e, html);
    match es
    case Last(_) =>
    case Trailing(_, hole) => LeaksHead(hole, html);
    case More(_, rest) => RestyledSaneElements(rest, html);
  }

  lemma {:induction false} RestyledSaneMembers(ms: Members, html: bool)
    requires WfMembers(ms)
    ensures SaneMembers(RestyleMembers(ms, Compacted(html)))
    decreases ms
  {
    LeaksHead(ms.m.before, html);
    EscapedString(ms.m.key, html);
    SpacesLeak(ms.m.colon, html);
    RestyledSaneElement(ms.m.e, html);
    if ms.MoreMembers? {
      RestyledSaneMembers(ms.others, html);
    }
  }

  lemma RestyledSaneDocument(d: Document, html: bool)
    requires WfDocument(d)
    ensures SaneDocument(Restyle(d, Compacted(html)))
  {
    LeaksHead(d.before, html);
    RestyledSaneValue(d.value, html);
    SpacesLeak(d.after, html);
  }

  /** Compaction of an accepted text is accepted exactly when the text is neat. */
  lemma CompactAccepted(d: Document, html: bool)
    requires WfDocument(d)
    ensures IsJson(Compact(Yield(d), html)) <==> Neat(d, Compacted(html))
  {
    var c := Restyle(d, Compacted(html));
    CompactYields(d, html);
    RestyledDocument(d, Compacted(html));
    RestyledSaneDocument(d, html);
    JsonIffWf(c);
  }

  /** It then means the same, and compacting it again changes nothing. */
  lemma CompactMeans(d: Document, html: bool)
    requires WfDocument(d) && Neat(d, Compacted(html))
    ensures forall e: Document | WfDocument(e) && Yield(e) == Compact(Yield(d), html) ::
              Meaning(e.value) == Meaning(d.value)
    ensures Compact(Compact(Yield(d), html), html) == Compact(Yield(d), html)
  {
    var style := Compacted(html);
    var c := Restyle(d, style);
    CompactYields(d, html);
    RestyledDocument(d, style);
    forall e: Document | WfDocument(e) && Yield(e) == Compact(Yield(d), html)
      ensures Meaning(e.value) == Meaning(d.value)
    {
      OneTree(e, c);
    }
    CompactYields(c, html);
    SpacesLeak(d.after, html);
    AgainValue(d.value, html);
  }

  /** Compacting a compacted tree changes nothing. */
  lemma {:induction false} AgainValue(v: Value, html: bool)
    requires WfValue(v) && NeatValue(v, Compacted(html))
    ensures RestyleValue(RestyleValue(v, Compacted(html)), Compacted(html)) == RestyleValue(v, Compacted(html))
    decreases v
  {
    match v
    case Literal(text) => EscapedTwice(text, html, html);
    case EmptyArray(_) =>
    case Array(es) => AgainElements(es, html);
    case EmptyObject(spaces) => SpacesLeak(spaces, html);
    case Object(ms) => AgainMembers(ms, html);
  }

  lemma {:induction false} AgainElement(e: Element, html: bool)
    requires WfElement(e) && NeatElement(e, Compacted(html))
    ensures RestyleElement(RestyleElement(e, Compacted(html)), Compacted(html)) == RestyleElement(e, Compacted(html))
    decreases e
  {
    AgainValue(e.value, html);
  }

  lemma {:induction false} AgainElements(es: Elements, html: bool)
    requires WfElements(es) && NeatElements(es, Compacted(html))
    ensures var style := Compacted(html);
            RestyleElements(RestyleElements(es, style), style) == RestyleElements(es, style)
    decreases es
  {
    AgainElement(es.e, html);
    if es.More? {
      AgainElements(es.rest, html);
    }
  }

  lemma {:induction false} AgainMembers(ms: Members, html: bool)
    requires WfMembers(ms) && NeatMembers(ms, Compacted(html))
    ensures var style := Compacted(html);
            RestyleMembers(RestyleMembers(ms, style), style) == RestyleMembers(ms, style)
    decreases ms
  {
    EscapedTwice(ms.m.key, html, html);
    SpacesLeak(ms.m.colon, html);
    hide RestyleElement;
    AgainElement(ms.m.e, html);
    if ms.MoreMembers? {
      AgainMembers(ms.others, html);
    }
  }

  // ---------- escaping first ----------

  lemma {:induction false} LeaksNothing(g: bytes, html: bool)
    requires Escaped(g, html) == g
    ensures Leaks(g, html) == []
    decreases |g|
  {
    if g != [] {
      EscapedHead(g, html);
      if EscapeAt(g, html).None? {
        assert g[1..] == Escaped(g, html)[1..] == Escaped(g[1..], html);
        LeaksNothing(g[1..], html);
      }
    }
  }

  /** After `HTMLEscape` no comment leaks. */
  lemma EscapedGapLeaksNothing(g: bytes)
    ensures Leaks(Escaped(g, true), false) == []
  {
    EscapedTwice(g, true, false);
    LeaksNothing(Escaped(g, true), false);
  }

  function Direct(v: Value): Value {
    RestyleValue(v, Compacted(true))
  }

  function ByHtml(v: Value): Value {
    RestyleValue(RestyleValue(v, HtmlEscaped), Compacted(false))
  }

  /** The two ways differ by the leaked bytes, and not at all when there are none. */
  lemma {:induction false} TwoWaysValue(v: Value)
    ensures |YieldValue(Direct(v))| == |YieldValue(ByHtml(v))| + LeakSizeValue(v, true)
    ensures LeakSizeValue(v, true) == 0 ==> Direct(v) == ByHtml(v)
    decreases v
  {
    match v
    case Literal(text) => EscapedTwice(text, true, false);
    case EmptyArray(gap) => EscapedGapLeaksNothing(gap);
    case Array(es) => TwoWaysElements(es);
    case EmptyObject(spaces) => EscapedGapLeaksNothing(spaces);
    case Object(ms) => TwoWaysMembers(ms);
  }

  lemma {:induction false} TwoWaysElement(e: Element)
    ensures var a, b := RestyleElement(e, Compacted(true)),
                        RestyleElement(RestyleElement(e, HtmlEscaped), Compacted(false));
            |YieldElement(a)| == |YieldElement(b)| + LeakSizeElement(e, true)
            && (LeakSizeElement(e, true) == 0 ==> a == b)
    decreases e
  {
    TwoWaysValue(e.value);
    EscapedGapLeaksNothing(e.before);
    EscapedGapLeaksNothing(e.after);
  }

  lemma {:induction false} TwoWaysElements(es: Elements)
    ensures var a, b := RestyleElements(es, Compacted(true)),
                        RestyleElements(RestyleElements(es, HtmlEscaped), Compacted(false));
            |YieldElements(a)| == |YieldElements(b)| + LeakSizeElements(es, true)
            && (LeakSizeElements(es, true) == 0 ==> a == b)
    decreases es
  {
    hide RestyleElement, YieldElement, LeakSizeElement;
    TwoWaysElement(es.e);
    match es
    case Last(_) =>
    case Trailing(_, hole) => EscapedGapLeaksNothing(hole);
    case More(_, rest) => TwoWaysElements(rest);
  }

  lemma {:induction false} TwoWaysMembers(ms: Members)
    ensures var a, b := RestyleMembers(ms, Compacted(true)),
                        RestyleMembers(RestyleMembers(ms, HtmlEscaped), Compacted(false));
            |YieldMembers(a)| == |YieldMembers(b)| + LeakSizeMembers(ms, true)
            && (LeakSizeMembers(ms, true) == 0 ==> a == b)
    decreases ms
  {
    hide RestyleElement, YieldElement, LeakSizeElement;
    TwoWaysElement(ms.m.e);
    EscapedGapLeaksNothing(ms.m.before);
    EscapedGapLeaksNothing(ms.m.colon);
    EscapedTwice(ms.m.key, true, false);
    if ms.MoreMembers? {
      TwoWaysMembers(ms.others);
    }
  }

  /** Compacting after `HTMLEscape` is compacting with the escape flag, exactly when no comment leaks. */
  lemma EscapeThenCompact(d: Document)
    requires WfDocument(d)
    ensures Compact(HtmlEscape(Yield(d)), false) == Compact(Yield(d), true) <==> LeakSize(d, true) == 0
  {
    var h := Restyle(d, HtmlEscaped);
    HtmlEscapeYields(d);
    NeatHtmlValue(d.value);
    RestyledDocument(d, HtmlEscaped);
    CompactYields(h, false);
    CompactYields(d, true);
    TwoWaysValue(d.value);
    EscapedGapLeaksNothing(d.before);
    EscapedGapLeaksNothing(d.after);
  }
}
