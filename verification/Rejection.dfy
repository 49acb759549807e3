/** Trees that are not documents, and whose texts the scanner therefore rejects. */
module Rejection {
  import opened Bytes
  import opened Scanning
  import opened Grammar
  import opened Recognition
  import opened Soundness

  // ---------- trees with displaced gaps ----------

  /** A gap, or bytes that no gap can start with. */
  predicate SaneGap(g: bytes) {
    IsGap(g) || (g != [] && g[0] == BACKSLASH)
  }

  ghost predicate SaneValue(v: Value) {
    match v
    case Literal(text) => IsLiteral(text)
    case EmptyArray(gap) => SaneGap(gap)
    case Array(es) => SaneElements(es)
    case EmptyObject(spaces) => IsSpaces(spaces)
    case Object(ms) => SaneMembers(ms)
  }

  ghost predicate SaneElement(e: Element) {
    SaneGap(e.before) && SaneValue(e.value) && SaneGap(e.after)
  }

  ghost predicate SaneElements(es: Elements) {
    match es
    case Last(e) => SaneElement(e)
    case Trailing(e, hole) => SaneElement(e) && SaneGap(hole)
    case More(e, rest) => SaneElement(e) && SaneElements(rest)
  }

  ghost predicate SaneMember(m: Member) {
    SaneGap(m.before) && IsString(m.key) && IsSpaces(m.colon) && SaneElement(m.e)
  }

  ghost predicate SaneMembers(ms: Members) {
    SaneMember(ms.m) && (ms.MoreMembers? ==> SaneMembers(ms.others))
  }

  ghost predicate SaneDocument(d: Document) {
    SaneGap(d.before) && SaneValue(d.value) && IsSpaces(d.after)
  }

  // ---------- dying ----------

  /** From `q` the text `s` runs into an error. */
  predicate Dies(q: Conf, s: bytes) {
    Run(q, s).step.Dead?
  }

  lemma DiesEarly(q: Conf, a: bytes, b: bytes)
    requires Dies(q, a)
    ensures Dies(q, a + b)
  {
    RunSplit(q, a, b);
    DeadForever(Run(q, a), b);
  }

  lemma DiesLater(q: Conf, a: bytes, es: seq<Event>, p: Conf, b: bytes)
    requires Reads(q, a, es, p) && Follows(p, b) && Dies(p, b) && !p.step.Dead?
    ensures Dies(q, a + b)
  {
    RunSplit(q, a, b);
    if b != [] && Run(q, a) != p {
      SettleStep(Run(q, a), b[0]);
    }
  }

  /** A backslash has no place in a gap. */
  lemma BrokenGap(q: Conf, g: bytes)
    requires GapPlace(q) && SaneGap(g) && !IsGap(g)
    ensures Dies(q, g) && Follows(q, g)
  {
    assert Trans(q, BACKSLASH).next.step.Dead?;
    DeadForever(Trans(q, BACKSLASH).next, g[1..]);
  }

  /** An opening byte that leads to `p`, and a body that dies there. */
  lemma DiesInside(q: Conf, open: byte, p: Conf, body: bytes, close: bytes)
    requires Trans(q, open).next == p && Dies(p, body + close)
    ensures Dies(q, [open] + body + close)
  {
    ReadOne(q, open);
    RunSplit(q, [open], body + close);
    assert [open] + body + close == [open] + (body + close);
  }

  lemma {:induction false} BrokenValue(q: Conf, v: Value)
    requires SaneValue(v) && AtValueStart(q) && !WfValue(v)
    ensures Dies(q, YieldValue(v))
    decreases v
  {
    hide Trans;
    Brackets(q);
    Braces(q);
    if v.EmptyArray? {
      var p := Conf(BeginValueOrEmpty, q.stack + [ArrayValue], false);
      BrokenGap(p, v.gap);
      DiesEarly(p, v.gap, [RBRACKET]);
      DiesInside(q, LBRACKET, p, v.gap, [RBRACKET]);
    } else if v.Array? {
      var p := Conf(BeginValueOrEmpty, q.stack + [ArrayValue], false);
      BrokenElements(p, v.elements);
      DiesInside(q, LBRACKET, p, YieldElements(v.elements), [RBRACKET]);
    } else {
      var p := Conf(BeginStringOrEmpty, q.stack + [ObjectKey], false);
      var body := YieldMembers(v.members);
      BrokenMembers(p, q.stack, v.members);
      DiesEarly(p, body, [RBRACE]);
      DiesInside(q, LBRACE, p, body, [RBRACE]);
    }
  }

  lemma {:induction false} BrokenElement(q: Conf, e: Element)
    requires SaneElement(e) && AtValueStart(q) && q.stack != [] && !WfElement(e)
    ensures Dies(q, YieldElement(e))
    decreases e
  {
    hide Trans, YieldValue;
    var text := YieldValue(e.value);
    if !IsGap(e.before) {
      BrokenGap(q, e.before);
      DiesEarly(q, e.before, text);
      DiesEarly(q, e.before + text, e.after);
    } else {
      var p := GapEnd(q, e.before);
      GapReads(q, e.before);
      if !WfValue(e.value) {
        BrokenValue(p, e.value);
        RunSplit(q, e.before, text);
        DiesEarly(q, e.before + text, e.after);
      } else {
        ValueReads(p, e.value);
        ReadThen(q, e.before, Mark(e.before, SkipSpace), p, text, EventsValue(e.value), Ended(q.stack));
        BrokenGap(Ended(q.stack), e.after);
        DiesLater(q, e.before + text, Mark(e.before, SkipSpace) + EventsValue(e.value), Ended(q.stack), e.after);
      }
    }
  }

  lemma {:induction false} BrokenElements(q: Conf, es: Elements)
    requires SaneElements(es) && AtValueStart(q) && Inside(q.stack, ArrayValue) && !WfElements(es)
    ensures Dies(q, YieldElements(es) + [RBRACKET])
    decreases es
  {
    hide Trans, YieldElement;
    var head := YieldElement(es.e);
    var all := YieldElements(es) + [RBRACKET];
    assert all == head + all[|head|..];
    if !WfElement(es.e) {
      BrokenElement(q, es.e);
      DiesEarly(q, head, all[|head|..]);
    } else {
      var rest := if es.More? then YieldElements(es.rest) else es.hole;
      assert all[|head|..] == [COMMA] + rest + [RBRACKET];
      ElementReads(q, es.e);
      BrokenRest(q, es);
      DiesLater(q, head, EventsElement(es.e), Ended(q.stack), [COMMA] + rest + [RBRACKET]);
    }
  }

  /** A comma after an element, and what is wrong after it. */
  lemma {:induction false} BrokenRest(q: Conf, es: Elements)
    requires SaneElements(es) && AtValueStart(q) && Inside(q.stack, ArrayValue)
    requires (es.More? && !WfElements(es.rest)) || (es.Trailing? && (!IsGap(es.hole) || IsSpaces(es.hole)))
    ensures Dies(Ended(q.stack), [COMMA] + (if es.More? then YieldElements(es.rest) else es.hole) + [RBRACKET])
    decreases es, 0
  {
    hide Trans;
    var outer := q.stack[..|q.stack| - 1];
    assert outer + [ArrayValue] == q.stack;
    Separators(outer);
    var p := Conf(BeginValue, q.stack, false);
    if es.More? {
      BrokenElements(p, es.rest);
      DiesInside(Ended(q.stack), COMMA, p, YieldElements(es.rest), [RBRACKET]);
    } else {
      if !IsGap(es.hole) {
        BrokenGap(p, es.hole);
        DiesEarly(p, es.hole, [RBRACKET]);
      } else {
        GapReads(p, es.hole);
        BareBracket(q.stack);
        RunSplit(p, es.hole, [RBRACKET]);
      }
      DiesInside(Ended(q.stack), COMMA, p, es.hole, [RBRACKET]);
    }
  }

  /** No closing bracket right after a comma. */
  lemma BareBracket(stack: seq<ParseState>)
    ensures Dies(Conf(BeginValue, stack, false), [RBRACKET])
  {
    ReadOne(Conf(BeginValue, stack, false), RBRACKET);
  }

  lemma {:induction false} BrokenMember(q: Conf, outer: seq<ParseState>, m: Member)
    requires SaneMember(m) && AtKeyStart(q) && q.stack == outer + [ObjectKey] && !WfMember(m)
    ensures Dies(q, YieldMember(m))
    decreases m
  {
    hide Trans, YieldElement;
    var text := m.before + m.key + m.colon + [COLON];
    var body := YieldElement(m.e);
    if !IsGap(m.before) {
      BrokenGap(q, m.before);
      assert text + body == m.before + (m.key + m.colon + [COLON] + body);
      DiesEarly(q, m.before, m.key + m.colon + [COLON] + body);
    } else {
      var r := Conf(BeginValue, outer + [ObjectValue], false);
      KeyColonReads(q, outer, m.before, m.key, m.colon);
      SettleElsewhere(Run(q, text), r);
      BrokenElement(r, m.e);
      RunSplit(q, text, body);
    }
  }

  lemma SettleElsewhere(q: Conf, p: Conf)
    requires Settle(q) == p && !p.step.EndValue? && !p.step.EndTop?
    ensures q == p
  {
  }

  lemma {:induction false} BrokenMembers(q: Conf, outer: seq<ParseState>, ms: Members)
    requires SaneMembers(ms) && AtKeyStart(q) && q.stack == outer + [ObjectKey] && !WfMembers(ms)
    ensures Dies(q, YieldMembers(ms))
    decreases ms
  {
    hide Trans, YieldMember;
    if !WfMember(ms.m) {
      BrokenMember(q, outer, ms.m);
      if ms.MoreMembers? {
        DiesEarly(q, YieldMember(ms.m), [COMMA]);
        DiesEarly(q, YieldMember(ms.m) + [COMMA], YieldMembers(ms.others));
      }
    } else {
      MemberReads(q, outer, ms.m);
      Separators(outer);
      var p, r := Ended(outer + [ObjectValue]), Conf(BeginString, outer + [ObjectKey], false);
      BrokenMembers(r, outer, ms.others);
      var rest := YieldMembers(ms.others);
      assert rest + [] == rest && [COMMA] + rest + [] == [COMMA] + rest;
      DiesInside(p, COMMA, r, rest, []);
      DiesLater(q, YieldMember(ms.m), EventsMember(ms.m), p, [COMMA] + rest);
      Assoc(YieldMember(ms.m), [COMMA], rest);
    }
  }

  lemma BrokenDocument(d: Document)
    requires SaneDocument(d) && !WfDocument(d)
    ensures Dies(INIT, Yield(d))
  {
    hide Trans, YieldValue;
    var text := YieldValue(d.value);
    if !IsGap(d.before) {
      BrokenGap(INIT, d.before);
      DiesEarly(INIT, d.before, text);
    } else {
      GapReads(INIT, d.before);
      BrokenValue(GapEnd(INIT, d.before), d.value);
      RunSplit(INIT, d.before, text);
    }
    DiesEarly(INIT, d.before + text, d.after);
  }

  /** The yield of a sane tree is accepted exactly when the tree is a document. */
  lemma JsonIffWf(d: Document)
    requires SaneDocument(d)
    ensures IsJson(Yield(d)) <==> WfDocument(d)
  {
    if !WfDocument(d) {
      BrokenDocument(d);
      Language(Yield(d));
    }
  }
}
