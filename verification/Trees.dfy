/** What documents mean, and how the printers rewrite them. */
module Trees {
  import opened Bytes
  import opened Grammar
  import opened Quote
  import opened Escaping

  // ---------- meaning ----------

  /** A decoded value; the text of a number is kept, as `UseNumber` does. */
  datatype Json =
    | JNull
    | JBool(b: bool)
    | JNumber(text: bytes)
    | JString(text: bytes)
    | JArray(items: seq<Json>)
    | JObject(fields: map<bytes, Json>)

  function MeaningLiteral(text: bytes): Json {
    if text == [] || text[0] == LOWER_N then JNull
    else if text[0] == LOWER_T then JBool(true)
    else if text[0] == LOWER_F then JBool(false)
    else if text[0] == QUOTE then JString(StringValue(text))
    else JNumber(text)
  }

  /** The bytes a string stands for; every string of the grammar has some (`StringUnquotes`). */
  function StringValue(text: bytes): bytes {
    match Unquoted(text)
    case Some(s) => s
    case None => []
  }

  function Meaning(v: Value): Json {
    match v
    case Literal(text) => MeaningLiteral(text)
    case EmptyArray(_) => JArray([])
    case Array(es) => JArray(MeaningElements(es))
    case EmptyObject(_) => JObject(map[])
    case Object(ms) => JObject(MeaningMembers(ms, map[]))
  }

  function MeaningElements(es: Elements): seq<Json> {
    match es
    case Last(e) => [Meaning(e.value)]
    case Trailing(e, _) => [Meaning(e.value)]
    case More(e, rest) => [Meaning(e.value)] + MeaningElements(rest)
  }

  /** Members are entered in order, so the last of several equal keys wins. */
  function MeaningMembers(ms: Members, fields: map<bytes, Json>): map<bytes, Json> {
    var now := fields[StringValue(ms.m.key) := Meaning(ms.m.e.value)];
    match ms
    case LastMember(_) => now
    case MoreMembers(_, others) => MeaningMembers(others, now)
  }

  // ---------- rewriting ----------

  /** `compact` drops gaps and escapes; `HTMLEscape` only escapes, gaps included. */
  datatype Style = Compacted(html: bool) | HtmlEscaped

  function Html(style: Style): bool {
    style.HtmlEscaped? || style.html
  }

  /** The escapes that `compact` writes for a comment although it drops the comment. */
  function Leaks(g: bytes, html: bool): bytes
    decreases |g|
  {
    if g == [] then []
    else match EscapeAt(g, html)
      case Some(p) => p.out + Leaks(g[p.size..], html)
      case None => Leaks(g[1..], html)
  }

  function RestyleGap(g: bytes, style: Style): bytes {
    match style
    case Compacted(html) => Leaks(g, html)
    case HtmlEscaped => Escaped(g, true)
  }

  function RestyleText(text: bytes, style: Style): bytes {
    Escaped(text, Html(style))
  }

  function RestyleValue(v: Value, style: Style): Value {
    match v
    case Literal(text) => Literal(RestyleText(text, style))
    case EmptyArray(gap) => EmptyArray(RestyleGap(gap, style))
    case Array(es) => Array(RestyleElements(es, style))
    case EmptyObject(spaces) => EmptyObject(RestyleGap(spaces, style))
    case Object(ms) => Object(RestyleMembers(ms, style))
  }

  function RestyleElement(e: Element, style: Style): Element {
    Element(RestyleGap(e.before, style), RestyleValue(e.value, style), RestyleGap(e.after, style))
  }

  function RestyleElements(es: Elements, style: Style): Elements {
    match es
    case Last(e) => Last(RestyleElement(e, style))
    case Trailing(e, hole) => Trailing(RestyleElement(e, style), RestyleGap(hole, style))
    case More(e, rest) => More(RestyleElement(e, style), RestyleElements(rest, style))
  }

  function RestyleMember(m: Member, style: Style): Member {
    Member(RestyleGap(m.before, style), RestyleText(m.key, style), RestyleGap(m.colon, style),
           RestyleElement(m.e, style))
  }

  function RestyleMembers(ms: Members, style: Style): Members {
    match ms
    case LastMember(m) => LastMember(RestyleMember(m, style))
    case MoreMembers(m, others) => MoreMembers(RestyleMember(m, style), RestyleMembers(others, style))
  }

  function Restyle(d: Document, style: Style): Document {
    Document(RestyleGap(d.before, style), RestyleValue(d.value, style), RestyleGap(d.after, style))
  }

  // ---------- when the rewritten document is a document ----------

  /** Nothing of the gap survives compaction. */
  predicate NeatGap(g: bytes, style: Style) {
    style.HtmlEscaped? || Leaks(g, style.html) == []
  }

  /** No comment leaks, and no array relies on a comment before its closing bracket. */
  predicate NeatValue(v: Value, style: Style) {
    match v
    case Literal(_) => true
    case EmptyArray(gap) => NeatGap(gap, style)
    case Array(es) => NeatElements(es, style)
    case EmptyObject(_) => true
    case Object(ms) => NeatMembers(ms, style)
  }

  predicate NeatElement(e: Element, style: Style) {
    NeatGap(e.before, style) && NeatValue(e.value, style) && NeatGap(e.after, style)
  }

  predicate NeatElements(es: Elements, style: Style) {
    match es
    case Last(e) => NeatElement(e, style)
    case Trailing(e, _) => NeatElement(e, style) && style.HtmlEscaped?
    case More(e, rest) => NeatElement(e, style) && NeatElements(rest, style)
  }

  predicate NeatMembers(ms: Members, style: Style) {
    NeatGap(ms.m.before, style) && NeatElement(ms.m.e, style)
    && (ms.MoreMembers? ==> NeatMembers(ms.others, style))
  }

  predicate Neat(d: Document, style: Style) {
    NeatGap(d.before, style) && NeatValue(d.value, style)
  }

  /** No array relies on a comment before its closing bracket. */
  predicate ClosedValue(v: Value) {
    match v
    case Literal(_) => true
    case EmptyArray(_) => true
    case Array(es) => ClosedElements(es)
    case EmptyObject(_) => true
    case Object(ms) => ClosedMembers(ms)
  }

  predicate ClosedElements(es: Elements) {
    ClosedValue(es.e.value) &&
    match es
    case Last(_) => true
    case Trailing(_, _) => false
    case More(_, rest) => ClosedElements(rest)
  }

  predicate ClosedMembers(ms: Members) {
    ClosedValue(ms.m.e.value) && (ms.MoreMembers? ==> ClosedMembers(ms.others))
  }

  /** How many bytes the comments of a tree leak into its compacted form. */
  function LeakSizeValue(v: Value, html: bool): nat {
    match v
    case Literal(_) => 0
    case EmptyArray(gap) => |Leaks(gap, html)|
    case Array(es) => LeakSizeElements(es, html)
    case EmptyObject(spaces) => |Leaks(spaces, html)|
    case Object(ms) => LeakSizeMembers(ms, html)
  }

  function LeakSizeElement(e: Element, html: bool): nat {
    |Leaks(e.before, html)| + LeakSizeValue(e.value, html) + |Leaks(e.after, html)|
  }

  function LeakSizeElements(es: Elements, html: bool): nat {
    LeakSizeElement(es.e, html) +
    match es
    case Last(_) => 0
    case Trailing(_, hole) => |Leaks(hole, html)|
    case More(_, rest) => LeakSizeElements(rest, html)
  }

  function LeakSizeMembers(ms: Members, html: bool): nat {
    |Leaks(ms.m.before, html)| + |Leaks(ms.m.colon, html)| + LeakSizeElement(ms.m.e, html)
    + if ms.MoreMembers? then LeakSizeMembers(ms.others, html) else 0
  }

  function LeakSize(d: Document, html: bool): nat {
    |Leaks(d.before, html)| + LeakSizeValue(d.value, html) + |Leaks(d.after, html)|
  }

  lemma {:induction false} NeatValueIff(v: Value, html: bool)
    requires WfValue(v)
    ensures NeatValue(v, Compacted(html)) <==> ClosedValue(v) && LeakSizeValue(v, html) == 0
    decreases v
  {
    match v
    case Literal(_) =>
    case EmptyArray(_) =>
    case Array(es) => NeatElementsIff(es, html);
    case EmptyObject(spaces) => SpacesLeak(spaces, html);
    case Object(ms) => NeatMembersIff(ms, html);
  }

  lemma {:induction false} NeatElementsIff(es: Elements, html: bool)
    requires WfElements(es)
    ensures NeatElements(es, Compacted(html)) <==> ClosedElements(es) && LeakSizeElements(es, html) == 0
    decreases es
  {
    NeatValueIff(es.e.value, html);
    if es.More? {
      NeatElementsIff(es.rest, html);
    }
  }

  lemma {:induction false} NeatMembersIff(ms: Members, html: bool)
    requires WfMembers(ms)
    ensures NeatMembers(ms, Compacted(html)) <==> ClosedMembers(ms) && LeakSizeMembers(ms, html) == 0
    decreases ms
  {
    assert WfMember(ms.m) && WfElement(ms.m.e);
    SpacesLeak(ms.m.colon, html);
    NeatValueIff(ms.m.e.value, html);
    if ms.MoreMembers? {
      NeatMembersIff(ms.others, html);
    }
  }

  /** Neat: no array ends in a comma and a comment, and no comment holds a character that is escaped. */
  lemma NeatIff(d: Document, html: bool)
    requires WfDocument(d)
    ensures Neat(d, Compacted(html)) <==> ClosedValue(d.value) && LeakSize(d, html) == 0
  {
    NeatValueIff(d.value, html);
    SpacesLeak(d.after, html);
  }

  // ---------- literals under escaping ----------

  lemma InertText(text: bytes, html: bool)
    requires forall c | c in text :: Inert(c)
    ensures Escaped(text, html) == text
  {
    EscapedInert(text, [], html);
    Unit(text);
  }

  lemma FractionInert(frac: bytes)
    requires frac == [] || (frac[0] == DOT && IsDigits(frac[1..]))
    ensures forall c | c in frac :: Inert(c)
  {
    if frac != [] {
      assert frac == [DOT] + frac[1..];
    }
  }

  lemma ExponentInert(exp: bytes)
    requires exp == [] || IsExponent(exp)
    ensures forall c | c in exp :: Inert(c)
  {
    if exp != [] {
      assert exp == [exp[0]] + exp[1..] && exp[1..] == [exp[1]] + exp[2..];
    }
  }

  lemma NumberInert(text: bytes)
    requires IsNumber(text)
    ensures text != [] && (forall c | c in text :: Inert(c)) && (IsDigit(text[0]) || text[0] == MINUS)
  {
    hide IsExponent;
    var n: Number :| n.Valid() && text == n.Text();
    FractionInert(n.frac);
    ExponentInert(n.exp);
    assert text[0] == (n.minus + n.whole)[0];
  }

  lemma SpacesInert(s: bytes)
    requires IsSpaces(s)
    ensures forall c | c in s :: Inert(c)
  {
  }

  lemma StringParts(text: bytes)
    requires IsString(text)
    ensures text == [QUOTE] + text[1..|text| - 1] + [QUOTE]
  {
  }

  /** Escaping works between the quotes. */
  lemma EscapedBetween(text: bytes, html: bool)
    requires IsString(text)
    ensures Escaped(text, html) == [QUOTE] + Escaped(text[1..|text| - 1], html) + [QUOTE]
  {
    var body := text[1..|text| - 1];
    StringParts(text);
    hide Escaped, IsString;
    EscapedSplit([QUOTE] + body, [QUOTE], html);
    EscapedInert([QUOTE], body, html);
    InertText([QUOTE], html);
  }

  lemma EscapedString(text: bytes, html: bool)
    requires IsString(text)
    ensures IsString(Escaped(text, html)) && Unquoted(Escaped(text, html)) == Unquoted(text)
    ensures StringValue(Escaped(text, html)) == StringValue(text)
  {
    hide Escaped, IsStringBody, UnquoteBody;
    var body, e := text[1..|text| - 1], Escaped(text, html);
    EscapedBetween(text, html);
    EscapedBody(body, html);
    assert e[1..|e| - 1] == Escaped(body, html);
  }

  /** A literal stays a literal with the same meaning. */
  lemma EscapedLiteral(text: bytes, html: bool)
    requires IsLiteral(text)
    ensures IsLiteral(Escaped(text, html)) && MeaningLiteral(Escaped(text, html)) == MeaningLiteral(text)
  {
    if IsString(text) {
      EscapedString(text, html);
    } else {
      if IsNumber(text) {
        NumberInert(text);
      }
      InertText(text, html);
    }
  }

  // ---------- gaps under escaping ----------

  lemma {:induction false} CommentPrefix(a: bytes, b: bytes)
    requires NEWLINE !in a && IsComment(b)
    ensures IsComment(a + b)
    decreases a
  {
    if a == [] {
      assert a + b == b;
    } else {
      assert (a + b)[1..] == a[1..] + b;
      CommentPrefix(a[1..], b);
    }
  }

  lemma {:induction false} EscapedGap(g: bytes, html: bool)
    requires IsGap(g)
    ensures IsGap(Escaped(g, html)) && (IsSpaces(Escaped(g, html)) <==> IsSpaces(g))
    decreases |g|
  {
    hide Escaped;
    if IsSpaces(g) {
      SpacesInert(g);
      InertText(g, html);
    } else if IsSpace(g[0]) {
      assert g == [g[0]] + g[1..];
      EscapedInert([g[0]], g[1..], html);
      EscapedGap(g[1..], html);
    } else {
      assert g == [SLASH, SLASH] + g[2..];
      EscapedInert([SLASH, SLASH], g[2..], html);
      EscapedComment(g[2..], html);
      assert SLASH in Escaped(g, html);
    }
  }

  lemma {:induction false} EscapedComment(g: bytes, html: bool)
    requires IsComment(g)
    ensures IsComment(Escaped(g, html))
    decreases |g|
  {
    var p := EscapePiece(g, html);
    if g[0] == NEWLINE {
      EscapedGap(g[1..], html);
    } else {
      if p.size == 3 {
        var t := g[1..];
        assert IsComment(t[1..]) && t[0] == 0x80;
        assert IsComment(t[1..][1..]) && t[1..][1..] == g[3..];
      }
      EscapedComment(g[p.size..], html);
      CommentPrefix(p.out, Escaped(g[p.size..], html));
    }
  }

  lemma {:induction false} SpacesLeak(s: bytes, html: bool)
    requires IsSpaces(s)
    ensures Leaks(s, html) == []
    decreases s
  {
    if s != [] {
      assert IsSpace(s[0]);
      SpacesLeak(s[1..], html);
    }
  }

  // ---------- rewriting keeps well-formedness and meaning ----------

  lemma {:induction false} LeaksHead(g: bytes, html: bool)
    ensures Leaks(g, html) == [] || Leaks(g, html)[0] == BACKSLASH
    decreases |g|
  {
    if g != [] {
      if EscapeAt(g, html).Some? {
        EscapeIsInert(g, html);
      } else {
        LeaksHead(g[1..], html);
      }
    }
  }

  lemma RestyledGap(g: bytes, style: Style)
    requires IsGap(g)
    ensures IsGap(RestyleGap(g, style)) <==> NeatGap(g, style)
  {
    match style
    case HtmlEscaped => EscapedGap(g, true);
    case Compacted(html) => LeaksHead(g, html);
  }

  lemma RestyledSpaces(g: bytes, style: Style)
    requires IsSpaces(g)
    ensures IsSpaces(RestyleGap(g, style)) && NeatGap(g, style)
  {
    SpacesInert(g);
    InertText(g, true);
    SpacesLeak(g, Html(style));
  }

  lemma {:induction false} RestyledValue(v: Value, style: Style)
    requires WfValue(v)
    ensures Meaning(RestyleValue(v, style)) == Meaning(v)
    ensures NeatValue(v, style) <==> WfValue(RestyleValue(v, style))
    decreases v
  {
    match v
    case Literal(text) => EscapedLiteral(text, Html(style));
    case EmptyArray(gap) => RestyledGap(gap, style);
    case Array(es) => RestyledElements(es, style);
    case EmptyObject(spaces) => RestyledSpaces(spaces, style);
    case Object(ms) => RestyledMembers(ms, map[], style);
  }

  lemma {:induction false} RestyledElement(e: Element, style: Style)
    requires WfElement(e)
    ensures Meaning(RestyleElement(e, style).value) == Meaning(e.value)
    ensures NeatElement(e, style) <==> WfElement(RestyleElement(e, style))
    decreases e
  {
    RestyledValue(e.value, style);
    RestyledGap(e.before, style);
    RestyledGap(e.after, style);
  }

  lemma {:induction false} RestyledElements(es: Elements, style: Style)
    requires WfElements(es)
    ensures MeaningElements(RestyleElements(es, style)) == MeaningElements(es)
    ensures NeatElements(es, style) <==> WfElements(RestyleElements(es, style))
    decreases es
  {
    RestyledElement(es.e, style);
    match es
    case Last(_) =>
    case Trailing(_, hole) =>
      EscapedGap(hole, true);
      LeaksHead(hole, Html(style));
    case More(_, rest) => RestyledElements(rest, style);
  }

  lemma {:induction false} RestyledMembers(ms: Members, fields: map<bytes, Json>, style: Style)
    requires WfMembers(ms)
    ensures MeaningMembers(RestyleMembers(ms, style), fields) == MeaningMembers(ms, fields)
    ensures NeatMembers(ms, style) <==> WfMembers(RestyleMembers(ms, style))
    decreases ms
  {
    hide Escaped, IsStringBody, StringValue, Unquoted;
    var m := ms.m;
    EscapedString(m.key, Html(style));
    RestyledElement(m.e, style);
    RestyledSpaces(m.colon, style);
    RestyledGap(m.before, style);
    if ms.MoreMembers? {
      RestyledMembers(ms.others, fields[StringValue(m.key) := Meaning(m.e.value)], style);
    }
  }

  /** Rewriting keeps the meaning, and gives a document exactly when the original is neat. */
  lemma RestyledDocument(d: Document, style: Style)
    requires WfDocument(d)
    ensures Meaning(Restyle(d, style).value) == Meaning(d.value)
    ensures Neat(d, style) <==> WfDocument(Restyle(d, style))
  {
    RestyledValue(d.value, style);
    RestyledSpaces(d.after, style);
    RestyledGap(d.before, style);
  }
}
