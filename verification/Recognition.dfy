/** The scanner reads exactly the texts of the grammar, and announces their structure in its opcodes. */
module Recognition {
  import opened Bytes
  import opened Scanning
  import opened Grammar

  // ---------- the opcodes of a text ----------

  function Mark(s: bytes, op: Op): seq<Event> {
    if s == [] then [] else [Event(s[0], op)] + Mark(s[1..], op)
  }

  function EventsLiteral(text: bytes): seq<Event> {
    if text == [] then [] else [Event(text[0], BeginLiteral)] + Mark(text[1..], Continue)
  }

  function EventsValue(v: Value): seq<Event> {
    match v
    case Literal(text) => EventsLiteral(text)
    case EmptyArray(gap) => [Event(LBRACKET, BeginArray)] + Mark(gap, SkipSpace) + [Event(RBRACKET, EndArray)]
    case Array(es) => [Event(LBRACKET, BeginArray)] + EventsElements(es) + [Event(RBRACKET, EndArray)]
    case EmptyObject(spaces) =>
      [Event(LBRACE, BeginObject)] + Mark(spaces, SkipSpace) + [Event(RBRACE, EndObject)]
    case Object(ms) => [Event(LBRACE, BeginObject)] + EventsMembers(ms) + [Event(RBRACE, EndObject)]
  }

  function EventsElement(e: Element): seq<Event> {
    Mark(e.before, SkipSpace) + EventsValue(e.value) + Mark(e.after, SkipSpace)
  }

  function EventsElements(es: Elements): seq<Event> {
    match es
    case Last(e) => EventsElement(e)
    case Trailing(e, hole) => EventsElement(e) + [Event(COMMA, ArrayValueDone)] + Mark(hole, SkipSpace)
    case More(e, rest) => EventsElement(e) + [Event(COMMA, ArrayValueDone)] + EventsElements(rest)
  }

  function EventsMember(m: Member): seq<Event> {
    Mark(m.before, SkipSpace) + EventsLiteral(m.key) + Mark(m.colon, SkipSpace)
    + [Event(COLON, ObjectKeyDone)] + EventsElement(m.e)
  }

  function EventsMembers(ms: Members): seq<Event> {
    match ms
    case LastMember(m) => EventsMember(m)
    case MoreMembers(m, others) => EventsMember(m) + [Event(COMMA, ObjectValueDone)] + EventsMembers(others)
  }

  function Events(d: Document): seq<Event> {
    Mark(d.before, SkipSpace) + EventsValue(d.value) + Mark(d.after, End)
  }

  lemma {:induction false} MarkSplit(a: bytes, b: bytes, op: Op)
    ensures Mark(a + b, op) == Mark(a, op) + Mark(b, op)
  {
    if a == [] {
      assert a + b == b;
    } else {
      assert (a + b)[1..] == a[1..] + b;
      MarkSplit(a[1..], b, op);
    }
  }

  // ---------- reading piece by piece ----------

  /** The bytes that can prolong a number. */
  predicate NumberChar(c: byte) {
    IsDigit(c) || c == DOT || c == LOWER_E || c == UPPER_E
  }

  /** A number is only known to be over at the next byte; settling says it is over now. */
  function Settle(q: Conf): Conf {
    if q.step.EndValue? || q.step.Int1? || q.step.Int0? || q.step.Point0? || q.step.Exp0?
    then if q.stack == [] then Ended([]) else q.(step := EndValue)
    else q
  }

  lemma SettleStep(q: Conf, c: byte)
    requires !NumberChar(c)
    ensures Trans(q, c) == Trans(Settle(q), c)
  {
  }

  /** From `q` the scanner takes `s` with the opcodes in `es` and settles in `p`. */
  predicate Reads(q: Conf, s: bytes, es: seq<Event>, p: Conf) {
    Trace(q, s) == es && Settle(Run(q, s)) == p
  }

  /** `b` can follow a text that settled in `p`. */
  predicate Follows(p: Conf, b: bytes) {
    b == [] || !NumberChar(b[0]) || !(p.step.EndValue? || p.step.EndTop?)
  }

  lemma ReadThen(q: Conf, a: bytes, ea: seq<Event>, p: Conf, b: bytes, eb: seq<Event>, r: Conf)
    requires Reads(q, a, ea, p) && Reads(p, b, eb, r) && Follows(p, b)
    ensures Reads(q, a + b, ea + eb, r)
  {
    RunSplit(q, a, b);
    if b != [] && Run(q, a) != p {
      SettleStep(Run(q, a), b[0]);
    }
  }

  lemma ReadOne(q: Conf, c: byte)
    ensures Run(q, [c]) == Trans(q, c).next && Trace(q, [c]) == [Event(c, Trans(q, c).op)]
  {
    assert Run(Trans(q, c).next, [c][1..]) == Trans(q, c).next;
  }

  // ---------- gaps ----------

  predicate AtValueStart(q: Conf) {
    (q.step.BeginValue? || q.step.BeginValueOrEmpty?) && !q.endTop && InValueContext(q.stack)
  }

  predicate AtKeyStart(q: Conf) {
    (q.step.BeginString? || q.step.BeginStringOrEmpty?) && !q.endTop && Inside(q.stack, ObjectKey)
  }

  /** After a value, inside an array or an object. */
  predicate AfterValue(q: Conf) {
    q.step.EndValue? && !q.endTop && q.stack != [] && InValueContext(q.stack)
  }

  /** Where a gap leads: a comment before a value re-opens the door to `]`, one before a key closes it to `}`. */
  function GapEnd(q: Conf, g: bytes): Conf {
    if IsSpaces(g) || q.step.EndValue? then q
    else if q.step.BeginValue? || q.step.BeginValueOrEmpty? then q.(step := BeginValueOrEmpty)
    else q.(step := BeginString)
  }

  /** The two comment steps that belong to a place where a comment may start. */
  function Opened(q: Conf): Conf {
    q.(step :=
      if q.step.BeginValue? || q.step.BeginValueOrEmpty? then MaybeCommentAtBeginValue
      else if q.step.BeginString? || q.step.BeginStringOrEmpty? then MaybeCommentAtBeginString
      else if Inside(q.stack, ObjectValue) then MaybeCommentAtEndValue
      else MaybeCommentAtEndArrayValue)
  }

  function Commented(q: Conf): Conf {
    q.(step :=
      if q.step.BeginValue? || q.step.BeginValueOrEmpty? then InCommentAtBeginValue
      else if q.step.BeginString? || q.step.BeginStringOrEmpty? then InCommentAtBeginString
      else if Inside(q.stack, ObjectValue) then InCommentAtEndValue
      else InCommentAtEndArrayValue)
  }

  predicate GapPlace(q: Conf) {
    AtValueStart(q) || AtKeyStart(q) || AfterValue(q)
  }

  lemma CommentSteps(q: Conf, c: byte)
    requires GapPlace(q)
    ensures Trans(q, SLASH) == Out(Opened(q), SkipSpace, None)
    ensures Trans(Opened(q), SLASH) == Out(Commented(q), SkipSpace, None)
    ensures Trans(Commented(q), c) ==
            Out(if c == NEWLINE then GapEnd(q, [SLASH]) else Commented(q), SkipSpace, None)
    ensures GapPlace(GapEnd(q, [SLASH]))
  {
    assert !IsSpaces([SLASH]) by { assert SLASH in [SLASH]; }
  }

  lemma {:induction false} GapReads(q: Conf, g: bytes)
    requires GapPlace(q) && IsGap(g)
    ensures Run(q, g) == GapEnd(q, g) && Trace(q, g) == Mark(g, SkipSpace)
    decreases |g|
  {
    if g == [] {
    } else if IsSpace(g[0]) {
      GapReads(q, g[1..]);
      assert IsSpaces(g) <==> IsSpaces(g[1..]) by { assert g == [g[0]] + g[1..]; }
    } else {
      CommentSteps(q, SLASH);
      CommentReads(q, g[2..]);
      assert g[1..][1..] == g[2..];
      assert !IsSpaces(g) by { assert SLASH in g; }
    }
  }

  lemma {:induction false} CommentReads(q: Conf, g: bytes)
    requires GapPlace(q) && IsComment(g)
    ensures Run(Commented(q), g) == GapEnd(q, [SLASH]) && Trace(Commented(q), g) == Mark(g, SkipSpace)
    decreases |g|
  {
    CommentSteps(q, g[0]);
    if g[0] == NEWLINE {
      GapReads(GapEnd(q, [SLASH]), g[1..]);
    } else {
      CommentReads(q, g[1..]);
    }
  }

  /** White space alone is also read after a key and after the top-level value. */
  lemma {:induction false} SpacesRead(q: Conf, s: bytes)
    requires IsSpaces(s) && (q.step.EndTop? || (q.step.EndValue? && q.stack != []))
    ensures Run(q, s) == q && Trace(q, s) == Mark(s, if q.step.EndTop? then End else SkipSpace)
    decreases s
  {
    if s != [] {
      assert IsSpace(s[0]);
      SpacesRead(q, s[1..]);
    }
  }

  // ---------- literals ----------

  /** The step reached when every byte of `s` stays inside the literal. */
  function LexRun(step: Step, s: bytes): Option<Step>
    decreases s
  {
    if s == [] then Some(step)
    else if !InLiteral(step) then None
    else match Lex(step, s[0])
      case Goto(next) => LexRun(next, s[1..])
      case _ => None
  }

  lemma {:induction false} LexRunReads(q: Conf, s: bytes, step: Step)
    requires LexRun(q.step, s) == Some(step)
    ensures Run(q, s) == q.(step := step) && Trace(q, s) == Mark(s, Continue)
    decreases s
  {
    if s != [] {
      TransInLiteral(q, s[0]);
      LexRunReads(Trans(q, s[0]).next, s[1..], step);
    }
  }

  lemma {:induction false} LexRunSplit(step: Step, a: bytes, b: bytes)
    requires LexRun(step, a).Some?
    ensures LexRun(step, a + b) == LexRun(LexRun(step, a).value, b)
    decreases a
  {
    if a == [] {
      assert a + b == b;
    } else {
      assert (a + b)[1..] == a[1..] + b;
      LexRunSplit(Lex(step, a[0]).step, a[1..], b);
    }
  }

  lemma {:induction false} LexBody(s: bytes)
    requires IsStringBody(s)
    ensures LexRun(InString, s) == Some(InString)
    decreases |s|
  {
    if s == [] {
    } else if s[0] != BACKSLASH {
      LexBody(s[1..]);
    } else if s[1] != LOWER_U {
      assert s[1..][1..] == s[2..];
      LexBody(s[2..]);
    } else {
      LexHexes(s[2..]);
      assert s[1..][1..] == s[2..] && s[2..][4..] == s[6..];
      LexBody(s[6..]);
    }
  }

  /** Four hexadecimal digits after `\\u`. */
  lemma LexHexes(s: bytes)
    requires |s| >= 4 && IsHex(s[0]) && IsHex(s[1]) && IsHex(s[2]) && IsHex(s[3])
    ensures LexRun(InStringEscU, s) == LexRun(InString, s[4..])
  {
    assert LexRun(InStringEscU, s) == LexRun(InStringEscU1, s[1..]);
    assert LexRun(InStringEscU1, s[1..]) == LexRun(InStringEscU12, s[1..][1..]);
    assert LexRun(InStringEscU12, s[2..]) == LexRun(InStringEscU123, s[2..][1..]);
    assert LexRun(InStringEscU123, s[3..]) == LexRun(InString, s[3..][1..]);
    assert s[1..][1..] == s[2..] && s[2..][1..] == s[3..] && s[3..][1..] == s[4..];
  }

  lemma {:induction false} LexDigits(step: Step, s: bytes)
    requires step.Int1? || step.Point0? || step.Exp0?
    requires forall c | c in s :: IsDigit(c)
    ensures LexRun(step, s) == Some(step)
    decreases s
  {
    if s != [] {
      assert s[0] in s && forall c | c in s[1..] :: c in s;
      LexDigits(step, s[1..]);
    }
  }

  /** The step after the first byte of a literal. */
  function FirstStep(c: byte): Option<Step> {
    if c == QUOTE then Some(InString)
    else if c == MINUS then Some(Neg)
    else if c == ZERO then Some(Int0)
    else if IsDigit(c) then Some(Int1)
    else if c == LOWER_T then Some(T)
    else if c == LOWER_F then Some(F)
    else if c == LOWER_N then Some(N)
    else None
  }

  predicate EndStep(step: Step) {
    step.EndValue? || step.Int1? || step.Int0? || step.Point0? || step.Exp0?
  }

  /** The bytes of `text` carry the scanner from the start of a literal to a place where it may end. */
  predicate LexesAsLiteral(text: bytes) {
    && text != [] && FirstStep(text[0]).Some?
    && var end := LexRun(FirstStep(text[0]).value, text[1..]);
    && end.Some? && EndStep(end.value)
  }

  lemma LexWhole(n: Number)
    requires n.Valid()
    ensures var s := n.minus + n.whole;
            && FirstStep(s[0]).Some?
            && (|| LexRun(FirstStep(s[0]).value, s[1..]) == Some(Int0)
                || LexRun(FirstStep(s[0]).value, s[1..]) == Some(Int1))
  {
    var s := n.minus + n.whole;
    var digits := n.whole[1..];
    assert n.whole[0] in n.whole && forall c | c in digits :: c in n.whole;
    if n.whole[0] == ZERO {
      assert digits == [];
    } else {
      LexDigits(Int1, digits);
    }
    if n.minus == [] {
      assert s == n.whole;
    } else {
      assert s[1..] == n.whole;
    }
  }

  /** A digit, and then the others. */
  lemma LexSomeDigits(step: Step, next: Step, ds: bytes)
    requires (step.Point? && next.Point0?) || ((step.Exp? || step.ExpSign?) && next.Exp0?)
    requires IsDigits(ds)
    ensures LexRun(step, ds) == Some(next)
  {
    assert ds[0] in ds && forall c | c in ds[1..] :: c in ds;
    LexDigits(next, ds[1..]);
  }

  lemma LexFrac(step: Step, frac: bytes)
    requires step.Int0? || step.Int1?
    requires frac == [] || (frac[0] == DOT && IsDigits(frac[1..]))
    ensures LexRun(step, frac) == Some(if frac == [] then step else Point0)
  {
    if frac != [] {
      LexSomeDigits(Point, Point0, frac[1..]);
    }
  }

  lemma LexExp(step: Step, exp: bytes)
    requires step.Int0? || step.Int1? || step.Point0?
    requires exp == [] || IsExponent(exp)
    ensures LexRun(step, exp) == Some(if exp == [] then step else Exp0)
  {
    if exp != [] {
      assert LexRun(step, exp) == LexRun(Exp, exp[1..]);
      if IsDigits(exp[1..]) {
        LexSomeDigits(Exp, Exp0, exp[1..]);
      } else {
        assert exp[1..][1..] == exp[2..];
        LexSomeDigits(ExpSign, Exp0, exp[2..]);
      }
    }
  }

  lemma LexNumber(n: Number)
    requires n.Valid()
    ensures LexesAsLiteral(n.Text())
  {
    var s := n.minus + n.whole;
    LexWhole(n);
    var first := FirstStep(s[0]).value;
    assert n.Text()[1..] == s[1..] + n.frac + n.exp;
    LexRunSplit(first, s[1..], n.frac);
    LexFrac(LexRun(first, s[1..]).value, n.frac);
    LexRunSplit(first, s[1..] + n.frac, n.exp);
    LexExp(LexRun(first, s[1..] + n.frac).value, n.exp);
  }

  lemma LexString(text: bytes)
    requires IsString(text)
    ensures LexesAsLiteral(text)
  {
    var body := text[1..|text| - 1];
    LexBody(body);
    LexRunSplit(InString, body, [QUOTE]);
    assert text[1..] == body + [QUOTE];
    assert LexRun(EndValue, [QUOTE][1..]) == Some(EndValue);
  }

  /** The remaining three letters of a keyword. */
  lemma LexLetters(s: bytes, step0: Step, step1: Step, step2: Step, step3: Step)
    requires |s| == 3 && InLiteral(step0) && InLiteral(step1) && InLiteral(step2)
    requires Lex(step0, s[0]) == Goto(step1) && Lex(step1, s[1]) == Goto(step2) && Lex(step2, s[2]) == Goto(step3)
    ensures LexRun(step0, s) == Some(step3)
  {
    assert s[1..][1..] == [s[2]];
    assert LexRun(step2, [s[2]]) == LexRun(step3, []);
  }

  lemma LexTrue()
    ensures LexRun(T, TRUE[1..]) == Some(EndValue)
  {
    LexLetters(TRUE[1..], T, Tr, Tru, EndValue);
  }

  lemma LexNull()
    ensures LexRun(N, NULL[1..]) == Some(EndValue)
  {
    LexLetters(NULL[1..], N, Nu, Nul, EndValue);
  }

  lemma LexFalse()
    ensures LexRun(F, FALSE[1..]) == Some(EndValue)
  {
    assert FALSE[1..][1..] == [LOWER_L, LOWER_S, LOWER_E];
    LexLetters([LOWER_L, LOWER_S, LOWER_E], Fa, Fal, Fals, EndValue);
  }

  lemma LiteralLexes(text: bytes)
    requires IsLiteral(text)
    ensures LexesAsLiteral(text)
  {
    if IsString(text) {
      LexString(text);
    } else if IsNumber(text) {
      var n: Number :| n.Valid() && text == n.Text();
      LexNumber(n);
    } else {
      LexTrue();
      LexFalse();
      LexNull();
    }
  }

  lemma LiteralStep(q: Conf, c: byte)
    requires FirstStep(c).Some? && (AtValueStart(q) || (AtKeyStart(q) && c == QUOTE))
    ensures Trans(q, c) == Go(q, FirstStep(c).value, BeginLiteral)
  {
  }

  /** A literal is read from any place where its first byte may stand. */
  lemma LiteralReads(q: Conf, text: bytes)
    requires LexesAsLiteral(text) && !q.endTop
    requires AtValueStart(q) || (AtKeyStart(q) && text[0] == QUOTE)
    ensures Reads(q, text, EventsLiteral(text), Ended(q.stack))
  {
    var first := FirstStep(text[0]).value;
    var end := LexRun(first, text[1..]).value;
    hide Trans;
    LiteralStep(q, text[0]);
    LexRunReads(q.(step := first), text[1..], end);
  }

  // ---------- values ----------

  /** How the elements of an array leave the scanner: only `Trailing` ends in a place before a value. */
  function ElementsEnd(stack: seq<ParseState>, es: Elements): Conf {
    match es
    case Last(_) => Ended(stack)
    case Trailing(_, _) => Conf(BeginValueOrEmpty, stack, false)
    case More(_, rest) => ElementsEnd(stack, rest)
  }

  lemma {:induction false} ValueReads(q: Conf, v: Value)
    requires WfValue(v) && AtValueStart(q)
    ensures Reads(q, YieldValue(v), EventsValue(v), Ended(q.stack))
    decreases v
  {
    hide Trans;
    Brackets(q);
    Braces(q);
    match v
    case Literal(text) =>
      LiteralLexes(text);
      LiteralReads(q, text);
    case EmptyArray(gap) =>
      var p := Conf(BeginValueOrEmpty, q.stack + [ArrayValue], false);
      GapReads(p, gap);
      Bracketed(q, LBRACKET, BeginArray, p, gap, Mark(gap, SkipSpace), p, RBRACKET, EndArray);
    case Array(es) =>
      var p := Conf(BeginValueOrEmpty, q.stack + [ArrayValue], false);
      ElementsRead(p, es);
      ElementsClose(q.stack, es);
      Bracketed(q, LBRACKET, BeginArray, p, YieldElements(es), EventsElements(es),
                ElementsEnd(p.stack, es), RBRACKET, EndArray);
    case EmptyObject(spaces) =>
      var p := Conf(BeginStringOrEmpty, q.stack + [ObjectKey], false);
      SpacesAreGap(spaces);
      GapReads(p, spaces);
      Bracketed(q, LBRACE, BeginObject, p, spaces, Mark(spaces, SkipSpace), p, RBRACE, EndObject);
    case Object(ms) =>
      var p := Conf(BeginStringOrEmpty, q.stack + [ObjectKey], false);
      MembersRead(p, q.stack, ms);
      Bracketed(q, LBRACE, BeginObject, p, YieldMembers(ms), EventsMembers(ms),
                Ended(q.stack + [ObjectValue]), RBRACE, EndObject);
  }

  /** The opening and closing bytes of arrays and objects around the place `q`. */
  lemma Brackets(q: Conf)
    requires AtValueStart(q)
    ensures Trans(q, LBRACKET) == Out(Conf(BeginValueOrEmpty, q.stack + [ArrayValue], false), BeginArray, None)
    ensures Trans(Conf(BeginValueOrEmpty, q.stack + [ArrayValue], false), RBRACKET)
            == Out(Ended(q.stack), EndArray, None)
  {
    LastOff(q.stack, ArrayValue);
  }

  lemma Braces(q: Conf)
    requires AtValueStart(q)
    ensures Trans(q, LBRACE) == Out(Conf(BeginStringOrEmpty, q.stack + [ObjectKey], false), BeginObject, None)
    ensures Trans(Conf(BeginStringOrEmpty, q.stack + [ObjectKey], false), RBRACE)
            == Out(Ended(q.stack), EndObject, None)
    ensures Trans(Ended(q.stack + [ObjectValue]), RBRACE) == Out(Ended(q.stack), EndObject, None)
  {
    LastOff(q.stack, ObjectKey);
    MemberCloses(q.stack);
  }

  lemma LastOff(stack: seq<ParseState>, p: ParseState)
    ensures (stack + [p])[..|stack|] == stack && (stack + [p])[|stack|] == p && stack + [p] != []
  {
  }

  lemma MemberCloses(outer: seq<ParseState>)
    ensures Trans(Ended(outer + [ObjectValue]), RBRACE) == Out(Ended(outer), EndObject, None)
  {
    LastOff(outer, ObjectValue);
  }

  /** The separators inside composites. */
  lemma Separators(outer: seq<ParseState>)
    ensures Trans(Ended(outer + [ArrayValue]), COMMA)
            == Out(Conf(BeginValue, outer + [ArrayValue], false), ArrayValueDone, None)
    ensures Trans(Ended(outer + [ObjectValue]), COMMA)
            == Out(Conf(BeginString, outer + [ObjectKey], false), ObjectValueDone, None)
    ensures Trans(Ended(outer + [ObjectKey]), COLON)
            == Out(Conf(BeginValue, outer + [ObjectValue], false), ObjectKeyDone, None)
  {
  }

  lemma {:induction false} SpacesAreGap(s: bytes)
    requires IsSpaces(s)
    ensures IsGap(s)
  {
    if s != [] {
      assert IsSpace(s[0]);
      SpacesAreGap(s[1..]);
    }
  }

  lemma {:induction false} ElementsClose(stack: seq<ParseState>, es: Elements)
    ensures Trans(ElementsEnd(stack + [ArrayValue], es), RBRACKET) == Out(Ended(stack), EndArray, None)
  {
    if es.More? {
      ElementsClose(stack, es.rest);
    }
  }

  /** An opening byte, a body, and the closing byte that returns to the outer context. */
  lemma Bracketed(q: Conf, open: byte, begin: Op, p: Conf, body: bytes, es: seq<Event>, r: Conf, close: byte, end: Op)
    requires Trans(q, open) == Out(p, begin, None) && !p.step.EndValue? && !p.step.EndTop?
    requires Settle(p) == p
    requires Reads(p, body, es, r)
    requires Trans(r, close) == Out(Ended(q.stack), end, None) && !NumberChar(close)
    ensures Reads(q, [open] + body + [close], [Event(open, begin)] + es + [Event(close, end)], Ended(q.stack))
  {
    ReadOne(q, open);
    ReadThen(q, [open], [Event(open, begin)], p, body, es, r);
    ReadOne(r, close);
    ReadThen(q, [open] + body, [Event(open, begin)] + es, r, [close], [Event(close, end)], Ended(q.stack));
  }

  lemma {:induction false} ElementReads(q: Conf, e: Element)
    requires WfElement(e) && AtValueStart(q) && q.stack != []
    ensures Reads(q, YieldElement(e), EventsElement(e), Ended(q.stack))
    decreases e
  {
    hide Trans;
    GapReads(q, e.before);
    var p := GapEnd(q, e.before);
    ValueReads(p, e.value);
    ReadThen(q, e.before, Mark(e.before, SkipSpace), p, YieldValue(e.value), EventsValue(e.value), Ended(q.stack));
    GapReads(Ended(q.stack), e.after);
    GapFollows(e.after);
    ReadThen(q, e.before + YieldValue(e.value), Mark(e.before, SkipSpace) + EventsValue(e.value),
             Ended(q.stack), e.after, Mark(e.after, SkipSpace), Ended(q.stack));
  }

  lemma GapFollows(g: bytes)
    requires IsGap(g)
    ensures g == [] || !NumberChar(g[0])
  {
  }

  lemma {:induction false} ElementsRead(q: Conf, es: Elements)
    requires WfElements(es) && AtValueStart(q) && Inside(q.stack, ArrayValue)
    ensures Reads(q, YieldElements(es), EventsElements(es), ElementsEnd(q.stack, es))
    decreases es
  {
    hide Trans;
    Separators(q.stack[..|q.stack| - 1]);
    assert q.stack[..|q.stack| - 1] + [ArrayValue] == q.stack;
    ElementReads(q, es.e);
    if !es.Last? {
      var p := Ended(q.stack);
      var r := Conf(BeginValue, q.stack, false);
      var comma := [Event(COMMA, ArrayValueDone)];
      ReadOne(p, COMMA);
      ReadThen(q, YieldElement(es.e), EventsElement(es.e), p, [COMMA], comma, r);
      var rest, events := if es.More? then YieldElements(es.rest) else es.hole, 
        if es.More? then EventsElements(es.rest) else Mark(es.hole, SkipSpace);
      if es.More? {
        ElementsRead(r, es.rest);
      } else {
        GapReads(r, es.hole);
      }
      ReadThen(q, YieldElement(es.e) + [COMMA], EventsElement(es.e) + comma, r, rest, events,
               ElementsEnd(q.stack, es));
    }
  }

  /** A key and the white space after it. */
  lemma KeyReads(q: Conf, outer: seq<ParseState>, before: bytes, key: bytes, colon: bytes)
    requires IsGap(before) && IsString(key) && IsSpaces(colon)
    requires AtKeyStart(q) && q.stack == outer + [ObjectKey]
    ensures Reads(q, before + key + colon,
                  Mark(before, SkipSpace) + EventsLiteral(key) + Mark(colon, SkipSpace), Ended(q.stack))
  {
    hide Trans;
    var p := GapEnd(q, before);
    GapReads(q, before);
    LexString(key);
    LiteralReads(p, key);
    ReadThen(q, before, Mark(before, SkipSpace), p, key, EventsLiteral(key), Ended(q.stack));
    SpacesRead(Ended(q.stack), colon);
    SpacesAreGap(colon);
    GapFollows(colon);
    ReadThen(q, before + key, Mark(before, SkipSpace) + EventsLiteral(key),
             Ended(q.stack), colon, Mark(colon, SkipSpace), Ended(q.stack));
  }

  /** The same with the colon. */
  lemma KeyColonReads(q: Conf, outer: seq<ParseState>, before: bytes, key: bytes, colon: bytes)
    requires IsGap(before) && IsString(key) && IsSpaces(colon)
    requires AtKeyStart(q) && q.stack == outer + [ObjectKey]
    ensures Reads(q, before + key + colon + [COLON],
                  Mark(before, SkipSpace) + EventsLiteral(key) + Mark(colon, SkipSpace)
                  + [Event(COLON, ObjectKeyDone)], Conf(BeginValue, outer + [ObjectValue], false))
  {
    hide Trans;
    Separators(outer);
    KeyReads(q, outer, before, key, colon);
    ReadOne(Ended(q.stack), COLON);
    ReadThen(q, before + key + colon,
             Mark(before, SkipSpace) + EventsLiteral(key) + Mark(colon, SkipSpace), Ended(q.stack),
             [COLON], [Event(COLON, ObjectKeyDone)], Conf(BeginValue, outer + [ObjectValue], false));
  }

  lemma {:induction false} MemberReads(q: Conf, outer: seq<ParseState>, m: Member)
    requires WfMember(m) && AtKeyStart(q) && q.stack == outer + [ObjectKey]
    ensures Reads(q, YieldMember(m), EventsMember(m), Ended(outer + [ObjectValue]))
    decreases m
  {
    hide Trans;
    var r := Conf(BeginValue, outer + [ObjectValue], false);
    KeyColonReads(q, outer, m.before, m.key, m.colon);
    ElementReads(r, m.e);
    ReadThen(q, m.before + m.key + m.colon + [COLON],
             Mark(m.before, SkipSpace) + EventsLiteral(m.key) + Mark(m.colon, SkipSpace)
             + [Event(COLON, ObjectKeyDone)],
             r, YieldElement(m.e), EventsElement(m.e), Ended(r.stack));
  }

  lemma {:induction false} MembersRead(q: Conf, outer: seq<ParseState>, ms: Members)
    requires WfMembers(ms) && AtKeyStart(q) && q.stack == outer + [ObjectKey]
    ensures Reads(q, YieldMembers(ms), EventsMembers(ms), Ended(outer + [ObjectValue]))
    decreases ms
  {
    hide Trans;
    Separators(outer);
    MemberReads(q, outer, ms.m);
    if ms.MoreMembers? {
      var p := Ended(outer + [ObjectValue]);
      var r := Conf(BeginString, outer + [ObjectKey], false);
      ReadOne(p, COMMA);
      ReadThen(q, YieldMember(ms.m), EventsMember(ms.m), p, [COMMA], [Event(COMMA, ObjectValueDone)], r);
      MembersRead(r, outer, ms.others);
      ReadThen(q, YieldMember(ms.m) + [COMMA], EventsMember(ms.m) + [Event(COMMA, ObjectValueDone)],
               r, YieldMembers(ms.others), EventsMembers(ms.others), p);
    }
  }

  /** Every document is read to its end, and the opcodes are those of its tree. */
  lemma DocumentReads(d: Document)
    requires WfDocument(d)
    ensures Trace(INIT, Yield(d)) == Events(d)
    ensures Accepts(INIT, Yield(d))
  {
    var p := GapEnd(INIT, d.before);
    GapReads(INIT, d.before);
    ValueReads(p, d.value);
    ReadThen(INIT, d.before, Mark(d.before, SkipSpace), p, YieldValue(d.value), EventsValue(d.value), Ended([]));
    SpacesRead(Ended([]), d.after);
    SpacesAreGap(d.after);
    GapFollows(d.after);
    ReadThen(INIT, d.before + YieldValue(d.value), Mark(d.before, SkipSpace) + EventsValue(d.value),
             Ended([]), d.after, Mark(d.after, End), Ended([]));
    assert Settle(Run(INIT, Yield(d))) == Ended([]);
    SettledEof(Run(INIT, Yield(d)));
  }

  lemma SettledEof(q: Conf)
    requires Settle(q) == Ended([])
    ensures EofOk(q)
  {
    SettleStep(q, SPACE);
  }
}
