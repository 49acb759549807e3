/** What the printers never write: `<`, `>` and `&` where they are escaped, and U+2028 and U+2029 anywhere. */
module EscapeSafety {
  import opened Bytes
  import opened Grammar
  import opened Utf8
  import opened Quote
  import opened Escaping
  import opened Trees
  import opened CompactResults
  import opened QuoteSpellings

  /** One of the characters in question starts at `s[i]`. */
  predicate Unsafe(s: bytes, i: nat, html: bool)
    requires i < |s|
  {
    || (html && (s[i] == '<' as int || s[i] == '>' as int || s[i] == '&' as int))
    || (i + 3 <= |s| && s[i] == 0xE2 && s[i + 1] == 0x80 && (s[i + 2] == 0xA8 || s[i + 2] == 0xA9))
  }

  predicate Safe(s: bytes, html: bool) {
    forall i | 0 <= i < |s| :: !Unsafe(s, i, html)
  }

  lemma UnsafeIsEscaped(s: bytes, html: bool)
    requires s != []
    ensures Unsafe(s, 0, html) <==> EscapeAt(s, html).Some?
    ensures forall i | 0 < i < |s| :: Unsafe(s, i, html) <==> Unsafe(s[1..], i - 1, html)
    ensures Safe(s, html) <==> !Unsafe(s, 0, html) && Safe(s[1..], html)
  {
    forall i | 0 < i < |s| ensures Unsafe(s, i, html) <==> Unsafe(s[1..], i - 1, html) {
    }
    hide Unsafe, EscapeAt;
    if Safe(s, html) {
      forall i | 0 <= i < |s[1..]| ensures !Unsafe(s[1..], i, html) {
        assert !Unsafe(s, i + 1, html);
      }
    }
  }

  lemma {:induction false} SafeIsKept(s: bytes, html: bool)
    requires Safe(s, html)
    ensures Escaped(s, html) == s
    decreases |s|
  {
    if s != [] {
      UnsafeIsEscaped(s, html);
      SafeIsKept(s[1..], html);
    }
  }

  /** Every escape is longer than what it is for. */
  lemma {:induction false} EscapedGrows(s: bytes, html: bool)
    ensures |Escaped(s, html)| >= |s|
    ensures !Safe(s, html) ==> |Escaped(s, html)| > |s|
    decreases |s|
  {
    if s != [] {
      UnsafeIsEscaped(s, html);
      EscapedGrows(s[EscapePiece(s, html).size..], html);
      if EscapeAt(s, html).Some? {
        EscapeIsInert(s, html);
      }
    }
  }

  /** Escaping changes exactly the texts that hold one of the characters, and leaves none of them. */
  lemma EscapedSafe(s: bytes, html: bool)
    ensures Escaped(s, html) == s <==> Safe(s, html)
    ensures Safe(Escaped(s, html), html)
  {
    hide Escaped, Safe;
    if Safe(s, html) {
      SafeIsKept(s, html);
    }
    EscapedGrows(s, html);
    EscapedTwice(s, html, html);
    EscapedGrows(Escaped(s, html), html);
  }

  /** The escapes are these, and every other byte stays. */
  lemma EscapesSpelled(rest: bytes, html: bool)
    ensures Escaped(['<' as int] + rest, true) == Unit4('0', '0', '3', 'c') + Escaped(rest, true)
    ensures Escaped(['>' as int] + rest, true) == Unit4('0', '0', '3', 'e') + Escaped(rest, true)
    ensures Escaped(['&' as int] + rest, true) == Unit4('0', '0', '2', '6') + Escaped(rest, true)
    ensures Escaped([0xE2, 0x80, 0xA8] + rest, html) == Unit4('2', '0', '2', '8') + Escaped(rest, html)
    ensures Escaped([0xE2, 0x80, 0xA9] + rest, html) == Unit4('2', '0', '2', '9') + Escaped(rest, html)
    ensures forall c: byte | !Unsafe([c] + rest, 0, html) :: Escaped([c] + rest, html) == [c] + Escaped(rest, html)
  {
    HtmlSpelled(rest);
    SeparatorsSpelled(rest, html);
    hide Escaped;
    forall c: byte | !Unsafe([c] + rest, 0, html) ensures Escaped([c] + rest, html) == [c] + Escaped(rest, html) {
      UnsafeIsEscaped([c] + rest, html);
      EscapeSpelled([c], [c], rest, html);
    }
  }

  lemma HtmlSpelled(rest: bytes)
    ensures Escaped(['<' as int] + rest, true) == Unit4('0', '0', '3', 'c') + Escaped(rest, true)
    ensures Escaped(['>' as int] + rest, true) == Unit4('0', '0', '3', 'e') + Escaped(rest, true)
    ensures Escaped(['&' as int] + rest, true) == Unit4('0', '0', '2', '6') + Escaped(rest, true)
  {
    hide Escaped;
    EscapeSpelled(['<' as int], Unit4('0', '0', '3', 'c'), rest, true);
    EscapeSpelled(['>' as int], Unit4('0', '0', '3', 'e'), rest, true);
    EscapeSpelled(['&' as int], Unit4('0', '0', '2', '6'), rest, true);
  }

  lemma SeparatorsSpelled(rest: bytes, html: bool)
    ensures Escaped([0xE2, 0x80, 0xA8] + rest, html) == Unit4('2', '0', '2', '8') + Escaped(rest, html)
    ensures Escaped([0xE2, 0x80, 0xA9] + rest, html) == Unit4('2', '0', '2', '9') + Escaped(rest, html)
  {
    hide Escaped;
    EscapeSpelled([0xE2, 0x80, 0xA8], Unit4('2', '0', '2', '8'), rest, html);
    EscapeSpelled([0xE2, 0x80, 0xA9], Unit4('2', '0', '2', '9'), rest, html);
  }

  lemma EscapeSpelled(s: bytes, out: bytes, rest: bytes, html: bool)
    requires s != [] && EscapePiece(s + rest, html) == Piece(out, |s|)
    ensures Escaped(s + rest, html) == out + Escaped(rest, html)
  {
    hide EscapePiece;
    assert (s + rest)[|s|..] == rest;
  }

  // ---------- printed strings ----------

  lemma RuneKept(s: bytes, t: bytes)
    requires s != []
    ensures Escaped(QuoteRune(s) + t, true) == QuoteRune(s) + Escaped(t, true)
  {
    var q := QuoteRune(s);
    if s[0] < RUNE_SELF {
      AsciiWritten(s[0]);
      PrintedInert(s[0]);
      EscapedInert(q, t, true);
    } else {
      BeyondWritten(s);
      if q[0] < RUNE_SELF {
        EscapedInert(q, t, true);
      } else {
        HighKept(s, t);
      }
    }
  }

  lemma PrintedInert(c: byte)
    requires c < RUNE_SELF
    ensures forall d | d in PrintedAscii(c) :: Inert(d)
  {
  }

  lemma HighKept(s: bytes, t: bytes)
    requires s != [] && s[0] >= RUNE_SELF && StartsWell(s) && QuoteRune(s) == s[..Need(s[0])]
    ensures Escaped(QuoteRune(s) + t, true) == QuoteRune(s) + Escaped(t, true)
  {
    var n := Need(s[0]);
    var u := s[..n] + t;
    assert u[..n] == s[..n] && u[n..] == t;
    EscapedTails(u, n, true);
  }

  /** The printer leaves nothing to escape. */
  lemma {:induction false} QuotedSafe(s: bytes)
    ensures Safe(Quoted(s), true)
  {
    hide Escaped, Safe, QuoteBody;
    BodyKept(s);
    EscapedInert([QUOTE], QuoteBody(s) + [QUOTE], true);
    EscapedSplit(QuoteBody(s), [QUOTE], true);
    EscapedInert([QUOTE], [], true);
    NothingLeft();
    Assoc([QUOTE], QuoteBody(s), [QUOTE]);
    Unit([QUOTE]);
    EscapedSafe(Quoted(s), true);
  }

  lemma NothingLeft()
    ensures Escaped([], true) == []
  {
  }

  lemma {:induction false} BodyKept(s: bytes)
    ensures Escaped(QuoteBody(s), true) == QuoteBody(s)
    decreases |s|
  {
    if s != [] {
      var rest := s[DecodeRune(s).size..];
      BodyKept(rest);
      RuneKept(s, QuoteBody(rest));
    }
  }

  // ---------- compacted texts ----------

  /** Nothing in `s` is to be escaped, and it begins with no part of a separator. */
  predicate Tidy(s: bytes, html: bool) {
    Escaped(s, html) == s && (s == [] || s[0] < RUNE_SELF)
  }

  lemma TidyJoin(a: bytes, b: bytes, html: bool)
    requires Tidy(a, html) && Tidy(b, html)
    ensures Tidy(a + b, html)
  {
    hide Escaped;
    EscapedSplit(a, b, html);
  }

  lemma TidyInert(s: bytes, html: bool)
    requires forall c | c in s :: Inert(c)
    ensures Tidy(s, html)
  {
    EscapedInert(s, [], html);
    Unit(s);
    assert s != [] ==> s[0] in s;
  }

  lemma TidyBracketed(open: byte, s: bytes, close: byte, html: bool)
    requires Inert(open) && Inert(close) && Tidy(s, html)
    ensures Tidy([open] + s + [close], html)
  {
    hide Tidy;
    TidyInert([open], html);
    TidyInert([close], html);
    TidyJoin([open], s, html);
    TidyJoin([open] + s, [close], html);
  }

  lemma {:induction false} TidyLeaks(g: bytes, html: bool)
    ensures Tidy(Leaks(g, html), html)
    decreases |g|
  {
    if g != [] {
      match EscapeAt(g, html)
      case Some(p) =>
        EscapeIsInert(g, html);
        hide EscapeAt, Tidy;
        TidyInert(p.out, html);
        TidyLeaks(g[p.size..], html);
        TidyJoin(p.out, Leaks(g[p.size..], html), html);
      case None => TidyLeaks(g[1..], html);
    }
  }

  lemma TidyLiteral(text: bytes, html: bool)
    requires text != [] && text[0] < RUNE_SELF
    ensures Tidy(Escaped(text, html), html)
  {
    EscapedTwice(text, html, html);
    EscapedHead(text, html);
  }

  lemma LiteralIsAscii(text: bytes)
    requires IsLiteral(text)
    ensures text != [] && text[0] < RUNE_SELF
  {
    hide IsStringBody;
    if IsNumber(text) {
      var n: Number :| n.Valid() && text == n.Text();
      assert n.minus == [] ==> text[0] == n.whole[0] && n.whole[0] in n.whole;
    }
  }

  lemma {:induction false} TidyValue(v: Value, html: bool)
    requires WfValue(v)
    ensures Tidy(YieldValue(RestyleValue(v, Compacted(html))), html)
    decreases v
  {
    hide Tidy, Escaped;
    match v
    case Literal(text) =>
      LiteralIsAscii(text);
      TidyLiteral(text, html);
    case EmptyArray(gap) =>
      TidyLeaks(gap, html);
      TidyBracketed(LBRACKET, Leaks(gap, html), RBRACKET, html);
    case Array(es) =>
      TidyElements(es, html);
      TidyBracketed(LBRACKET, YieldElements(RestyleElements(es, Compacted(html))), RBRACKET, html);
    case EmptyObject(spaces) =>
      TidyLeaks(spaces, html);
      TidyBracketed(LBRACE, Leaks(spaces, html), RBRACE, html);
    case Object(ms) =>
      TidyMembers(ms, html);
      TidyBracketed(LBRACE, YieldMembers(RestyleMembers(ms, Compacted(html))), RBRACE, html);
  }

  lemma {:induction false} TidyElement(e: Element, html: bool)
    requires WfElement(e)
    ensures Tidy(YieldElement(RestyleElement(e, Compacted(html))), html)
    decreases e
  {
    hide Tidy, WfValue, IsGap;
    var value := YieldValue(RestyleValue(e.value, Compacted(html)));
    TidyLeaks(e.before, html);
    TidyValue(e.value, html);
    TidyLeaks(e.after, html);
    hide Leaks, YieldValue, RestyleValue;
    TidyJoin(Leaks(e.before, html), value, html);
    TidyJoin(Leaks(e.before, html) + value, Leaks(e.after, html), html);
  }

  lemma {:induction false} TidyElements(es: Elements, html: bool)
    requires WfElements(es)
    ensures Tidy(YieldElements(RestyleElements(es, Compacted(html))), html)
    decreases es
  {
    hide Tidy, WfElement, IsGap;
    var first := YieldElement(RestyleElement(es.e, Compacted(html)));
    TidyElement(es.e, html);
    TidyInert([COMMA], html);
    TidyJoin(first, [COMMA], html);
    hide YieldElement, RestyleElement, Leaks;
    match es
    case Last(_) =>
    case Trailing(_, hole) =>
      TidyLeaks(hole, html);
      TidyJoin(first + [COMMA], Leaks(hole, html), html);
    case More(_, rest) =>
      TidyElements(rest, html);
      TidyJoin(first + [COMMA], YieldElements(RestyleElements(rest, Compacted(html))), html);
  }

  lemma {:induction false} TidyMember(m: Member, html: bool)
    requires WfMember(m)
    ensures Tidy(YieldMember(RestyleMember(m, Compacted(html))), html)
    decreases m
  {
    hide Tidy, IsGap, Leaks, YieldElement, RestyleElement, Escaped, WfElement;
    var a, b, c := Leaks(m.before, html), Escaped(m.key, html), Leaks(m.colon, html);
    var e := YieldElement(RestyleElement(m.e, Compacted(html)));
    TidyLeaks(m.before, html);
    LiteralIsAscii(m.key);
    TidyLiteral(m.key, html);
    TidyLeaks(m.colon, html);
    TidyInert([COLON], html);
    TidyElement(m.e, html);
    TidyJoin(a, b, html);
    TidyJoin(a + b, c, html);
    TidyJoin(a + b + c, [COLON], html);
    TidyJoin(a + b + c + [COLON], e, html);
  }

  lemma {:induction false} TidyMembers(ms: Members, html: bool)
    requires WfMembers(ms)
    ensures Tidy(YieldMembers(RestyleMembers(ms, Compacted(html))), html)
    decreases ms
  {
    hide Tidy, WfMember;
    var first := YieldMember(RestyleMember(ms.m, Compacted(html)));
    TidyMember(ms.m, html);
    hide YieldMember, RestyleMember;
    if ms.MoreMembers? {
      TidyInert([COMMA], html);
      TidyJoin(first, [COMMA], html);
      TidyMembers(ms.others, html);
      TidyJoin(first + [COMMA], YieldMembers(RestyleMembers(ms.others, Compacted(html))), html);
    }
  }

  /** What `compact` prints for an accepted text holds none of the characters that it escapes. */
  lemma CompactSafe(x: bytes, html: bool)
    requires IsJson(x)
    ensures Safe(Compact(x, html), html)
  {
    hide Tidy, WfValue, IsGap, Leaks, Compact;
    var d: Document :| WfDocument(d) && Yield(d) == x;
    CompactYields(d, html);
    TidyLeaks(d.before, html);
    TidyValue(d.value, html);
    TidyLeaks(d.after, html);
    hide YieldValue, RestyleValue;
    var value := YieldValue(RestyleValue(d.value, Compacted(html)));
    TidyJoin(Leaks(d.before, html), value, html);
    TidyJoin(Leaks(d.before, html) + value, Leaks(d.after, html), html);
    TidyIsSafe(Compact(x, html), html);
  }

  lemma TidyIsSafe(s: bytes, html: bool)
    requires Tidy(s, html)
    ensures Safe(s, html)
  {
    EscapedSafe(s, html);
  }

  /** Nor does what `HTMLEscape` prints, whatever it is given. */
  lemma HtmlEscapeSafe(x: bytes)
    ensures Safe(HtmlEscape(x), true)
  {
    EscapedSafe(x, true);
  }
}
