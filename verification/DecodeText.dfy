/** The text still ahead of the recursive decoder, and the opcodes it will meet there. */
module DecodeText {
  import opened Bytes
  import opened Scanning
  import opened Grammar
  import opened Recognition
  import opened Soundness
  import opened Rejection
  import opened Unambiguous
  import opened Utf8
  import opened Quote
  import opened Trees

  /** What is left of an array: a gap and the closing bracket, or elements. */
  datatype Todo = Close(gap: bytes) | Items(es: Elements)

  function TodoText(t: Todo): bytes {
    match t
    case Close(gap) => gap
    case Items(es) => YieldElements(es)
  }

  function TodoMeaning(t: Todo): seq<Json> {
    match t
    case Close(_) => []
    case Items(es) => MeaningElements(es)
  }

  ghost predicate TodoWf(p: Conf, t: Todo) {
    match t
    case Close(gap) => IsGap(gap) && GapEnd(p, gap).step.BeginValueOrEmpty?
    case Items(es) => WfElements(es)
  }

  lemma {:induction false} MarkOps(p: Conf, s: bytes, op: Op)
    requires Trace(p, s) == Mark(s, op)
    ensures forall i | 0 <= i < |s| :: Trace(p, s)[i].op == op
  {
    MarkAt(s, op);
  }

  lemma {:induction false} MarkAt(s: bytes, op: Op)
    ensures |Mark(s, op)| == |s| && forall i | 0 <= i < |s| :: Mark(s, op)[i] == Event(s[i], op)
    decreases s
  {
    if s != [] {
      MarkAt(s[1..], op);
    }
  }


  function ArrayTodo(v: Value): Todo
    requires v.Array? || v.EmptyArray?
  {
    if v.Array? then Items(v.elements) else Close(v.gap)
  }

  /** What is left of an object: white space and the closing brace, or members. */
  datatype MemberTodo = CloseObject(spaces: bytes) | Fields(ms: Members)

  function MemberTodoText(t: MemberTodo): bytes {
    match t
    case CloseObject(spaces) => spaces
    case Fields(ms) => YieldMembers(ms)
  }

  function MemberTodoMeaning(t: MemberTodo, fields: map<bytes, Json>): map<bytes, Json> {
    match t
    case CloseObject(_) => fields
    case Fields(ms) => MeaningMembers(ms, fields)
  }

  ghost predicate MemberTodoWf(p: Conf, t: MemberTodo) {
    match t
    case CloseObject(spaces) => IsSpaces(spaces) && p.step.BeginStringOrEmpty?
    case Fields(ms) => WfMembers(ms)
  }

  function ObjectTodo(v: Value): MemberTodo
    requires v.Object? || v.EmptyObject?
  {
    if v.Object? then Fields(v.members) else CloseObject(v.spaces)
  }

  function Source(w: Option<Value>): bytes {
    if w.Some? then YieldValue(w.value) else []
  }

  // ---------- looking ahead ----------

  /** A gap returns `SkipSpace` throughout. */
  lemma GapRuns(p: Conf, g: bytes)
    requires GapPlace(p) && IsGap(g)
    ensures Run(p, g) == GapEnd(p, g) && forall i | 0 <= i < |g| :: Trace(p, g)[i].op == SkipSpace
  {
    hide Trans, Run, Trace, IsGap;
    GapReads(p, g);
    MarkOps(p, g, SkipSpace);
  }

  /** A comment-only text ends without a value. */
  lemma NothingThere(q: Conf)
    requires AtValueStart(q)
    ensures !EofOk(q)
  {
  }

  /** The first byte of a value, and where it leads. */
  lemma ValueFirst(q: Conf, v: Value, r: bytes)
    requires WfValue(v) && AtValueStart(q)
    ensures YieldValue(v) != [] && Trans(q, YieldValue(v)[0]).op == Opening(v)
    ensures (YieldValue(v) + r)[0] == YieldValue(v)[0]
    ensures v.Literal? ==> v.text != [] && IsLiteral(v.text) && (YieldValue(v) + r)[1..] == v.text[1..] + r
    ensures v.Array? || v.EmptyArray? ==>
      && Trans(q, YieldValue(v)[0]).next == Conf(BeginValueOrEmpty, q.stack + [ArrayValue], false)
      && (YieldValue(v) + r)[1..] == TodoText(ArrayTodo(v)) + ([RBRACKET] + r)
      && |TodoText(ArrayTodo(v))| < |YieldValue(v)|
      && TodoWf(Conf(BeginValueOrEmpty, q.stack + [ArrayValue], false), ArrayTodo(v))
    ensures v.Object? || v.EmptyObject? ==>
      && Trans(q, YieldValue(v)[0]).next == Conf(BeginStringOrEmpty, q.stack + [ObjectKey], false)
      && (YieldValue(v) + r)[1..] == MemberTodoText(ObjectTodo(v)) + ([RBRACE] + r)
      && |MemberTodoText(ObjectTodo(v))| < |YieldValue(v)|
      && MemberTodoWf(Conf(BeginStringOrEmpty, q.stack + [ObjectKey], false), ObjectTodo(v))
  {
    hide Trans, YieldElements, YieldMembers, WfElements, WfMembers, IsLiteral;
    match v
    case Literal(text) =>
      LiteralLexes(text);
      LiteralStep(q, text[0]);
    case EmptyArray(gap) => Brackets(q); Assoc([LBRACKET] + gap, [RBRACKET], r);
    case Array(es) => Brackets(q); Assoc([LBRACKET] + YieldElements(es), [RBRACKET], r);
    case EmptyObject(spaces) => Braces(q); Assoc([LBRACE] + spaces, [RBRACE], r);
    case Object(ms) => Braces(q); Assoc([LBRACE] + YieldMembers(ms), [RBRACE], r);
  }

  /** What may follow a value: the end of the data at top level, a byte that no number goes on with elsewhere. */
  predicate AfterOk(stack: seq<ParseState>, r: bytes) {
    if r == [] then stack == [] else !NumberChar(r[0])
  }

  /** The rest of a literal: continuation bytes, and then something else. */
  lemma LiteralRest(p: Conf, text: bytes, r: bytes)
    requires AtValueStart(p) || (AtKeyStart(p) && IsString(text))
    requires IsLiteral(text) && text != [] && AfterOk(p.stack, r)
    requires !Dies(Trans(p, text[0]).next, text[1..] + r)
    ensures var q := Trans(p, text[0]).next;
      && (forall i | 0 <= i < |text[1..]| :: Trace(q, text[1..])[i].op == Continue)
      && !Dies(Ended(p.stack), r)
      && (r != [] ==> Trans(Run(q, text[1..]), r[0]) == Trans(Ended(p.stack), r[0])
                      && Trans(Ended(p.stack), r[0]).op != Continue)
      && (r == [] ==> EofOk(Run(q, text[1..])))
      && (r == [] && text[1..] == [] ==> Ended(p.stack) == Ended([]))
  {
    hide Trans, Run, Trace, IsLiteral;
    var q := Trans(p, text[0]).next;
    LiteralLexes(text);
    LiteralReads(p, text);
    LiteralStep(p, text[0]);
    var end := LexRun(q.step, text[1..]).value;
    LexRunReads(q, text[1..], end);
    MarkOps(q, text[1..], Continue);
    EndsSettle(q.(step := end));
    RunSplit(q, text[1..], r);
    if r != [] {
      SettledStep(q.(step := end), Ended(p.stack), r);
      NoContinue(p.stack, r[0]);
      SettledRun(q.(step := end), Ended(p.stack), r);
    } else {
      SettledEof(q.(step := end));
      RunEmpty(Ended(p.stack));
    }
  }

  lemma RunEmpty(p: Conf)
    ensures Run(p, []) == p
  {
  }

  lemma EndsSettle(q: Conf)
    requires EndStep(q.step) && !q.endTop
    ensures Settle(q) == Ended(q.stack)
  {
  }

  lemma NoContinue(stack: seq<ParseState>, c: byte)
    ensures Trans(Ended(stack), c).op != Continue
  {
  }

  lemma SettledRun(q: Conf, p: Conf, r: bytes)
    requires r != [] && Trans(q, r[0]) == Trans(p, r[0])
    ensures Run(q, r) == Run(p, r)
  {
  }

  lemma LiteralStarts(text: bytes)
    requires IsLiteral(text) && text != []
    ensures text[0] == QUOTE ==> Unquoted(text).Some?
    ensures text[0] == QUOTE || text[0] == LOWER_N || text[0] == LOWER_T || text[0] == LOWER_F
            || text[0] == MINUS || IsDigit(text[0])
  {
    if IsString(text) {
      StringUnquotes(text);
    } else if IsNumber(text) {
      NumberInert(text);
    }
  }

  /** The first byte of a readable text leaves the scanner alive. */
  lemma StepAlive(p: Conf, r: bytes)
    requires r != [] && !Dies(p, r)
    ensures !Trans(p, r[0]).next.step.Dead? && !Dies(Trans(p, r[0]).next, r[1..]) && !p.step.Dead?
  {
    if p.step.Dead? {
      DeadForever(p, r);
    }
    if Trans(p, r[0]).next.step.Dead? {
      DeadForever(Trans(p, r[0]).next, r[1..]);
    }
  }

  lemma SettledStep(q: Conf, p: Conf, r: bytes)
    requires r != []
    ensures Settle(q) == p && Follows(p, r) ==> Trans(q, r[0]) == Trans(p, r[0])
  {
    if Settle(q) == p && Follows(p, r) && q != p {
      SettleStep(q, r[0]);
    }
  }

  lemma RunNothing(p: Conf, t: bytes)
    ensures Run(p, t[..0]) == p && t[0..] == t
  {
  }

  /** The scanner after `n` bytes of `s + r`, and its next opcode. */
  lemma TraceAt(p: Conf, s: bytes, r: bytes, n: nat)
    requires n <= |s|
    ensures var t := s + r;
      && (n < |s| ==> t[n..] != [] && Trace(p, s)[n].op == Trans(Run(p, t[..n]), t[n..][0]).op)
      && (n == |s| ==> t[..n] == s && t[n..] == r)
      && (n < |t| ==> Run(p, t[..n + 1]) == Trans(Run(p, t[..n]), t[n..][0]).next && t[n..][1..] == t[n + 1..])
  {
    var t := s + r;
    if n < |s| {
      RunAt(p, s, n);
      assert t[..n] == s[..n];
    }
    if n < |t| {
      RunAt(p, t, n);
    }
  }

  lemma ValueKinds(v: Value)
    ensures Opening(v) == BeginArray <==> v.Array? || v.EmptyArray?
    ensures Opening(v) == BeginObject <==> v.Object? || v.EmptyObject?
    ensures Opening(v) == BeginLiteral <==> v.Literal?
    ensures v.Array? || v.EmptyArray? ==> Meaning(v) == JArray(TodoMeaning(ArrayTodo(v)))
    ensures v.Object? || v.EmptyObject? ==> Meaning(v) == JObject(MemberTodoMeaning(ObjectTodo(v), map[]))
    ensures v.Literal? ==> Meaning(v) == MeaningLiteral(v.text) && YieldValue(v) == v.text
  {
  }

  /** A gap before a value leads to a place before a value. */
  lemma StartsAgain(p: Conf, g: bytes)
    requires AtValueStart(p)
    ensures AtValueStart(GapEnd(p, g)) && GapEnd(p, g).stack == p.stack
  {
  }

  // ---------- elements and members ----------

  /** What stands after the first element and its gap, up to and including `close`. */
  function Beyond(es: Elements, close: bytes): bytes {
    match es
    case Last(_) => close
    case Trailing(_, hole) => [COMMA] + (hole + close)
    case More(_, rest) => [COMMA] + (YieldElements(rest) + close)
  }

  lemma ElementsText(es: Elements, close: bytes)
    ensures YieldElements(es) + close
            == es.e.before + (YieldValue(es.e.value) + (es.e.after + Beyond(es, close)))
  {
    var e := es.e;
    Assoc(e.before + YieldValue(e.value), e.after, Beyond(es, close));
    Assoc(e.before, YieldValue(e.value), e.after + Beyond(es, close));
    match es
    case Last(_) =>
    case Trailing(_, hole) =>
      Assoc(YieldElement(e) + [COMMA], hole, close);
      Assoc(YieldElement(e), [COMMA], hole + close);
    case More(_, rest) =>
      Assoc(YieldElement(e) + [COMMA], YieldElements(rest), close);
      Assoc(YieldElement(e), [COMMA], YieldElements(rest) + close);
  }

  /** What is left of an array after an element and its comma. */
  function AfterComma(es: Elements): Todo
    requires !es.Last?
  {
    if es.More? then Items(es.rest) else Close(es.hole)
  }

  /** After an element: the bracket, or a comma and the rest. */
  lemma ElementSteps(outer: seq<ParseState>, es: Elements, r: bytes)
    requires WfElements(es)
    ensures var t := Beyond(es, [RBRACKET] + r);
      && t != [] && AfterOk(outer + [ArrayValue], es.e.after + t)
      && (es.Last? ==> Trans(Ended(outer + [ArrayValue]), t[0]) == Out(Ended(outer), EndArray, None)
                       && t[1..] == r && MeaningElements(es) == [Meaning(es.e.value)])
      && (!es.Last? ==>
            && Trans(Ended(outer + [ArrayValue]), t[0])
               == Out(Conf(BeginValue, outer + [ArrayValue], false), ArrayValueDone, None)
            && t[1..] == TodoText(AfterComma(es)) + ([RBRACKET] + r)
            && |TodoText(AfterComma(es))| < |YieldElements(es)|
            && TodoWf(Conf(BeginValue, outer + [ArrayValue], false), AfterComma(es))
            && MeaningElements(es) == [Meaning(es.e.value)] + TodoMeaning(AfterComma(es)))
  {
    hide YieldValue, WfValue, Meaning;
    Separators(outer);
    GapFollows(es.e.after);
    assert (outer + [ArrayValue])[..|outer|] == outer;
  }

  /** What stands after the first member, up to and including `close`. */
  function BeyondMember(ms: Members, close: bytes): bytes {
    match ms
    case LastMember(_) => close
    case MoreMembers(_, others) => [COMMA] + (YieldMembers(others) + close)
  }

  /** What stands after the key of the first member. */
  function PastKey(ms: Members, close: bytes): bytes {
    ms.m.colon + ([COLON] + PastColon(ms, close))
  }

  function PastColon(ms: Members, close: bytes): bytes {
    ms.m.e.before + (YieldValue(ms.m.e.value) + (ms.m.e.after + BeyondMember(ms, close)))
  }

  lemma MembersText(ms: Members, close: bytes)
    ensures YieldMembers(ms) + close == ms.m.before + (ms.m.key + PastKey(ms, close))
  {
    var m := ms.m;
    var e := m.e;
    var t := BeyondMember(ms, close);
    hide YieldValue;
    if ms.MoreMembers? {
      Assoc(YieldMember(m) + [COMMA], YieldMembers(ms.others), close);
      Assoc(YieldMember(m), [COMMA], YieldMembers(ms.others) + close);
    }
    assert YieldMembers(ms) + close == YieldMember(m) + t;
    ElementText(e, t);
    Assoc(m.before + m.key + m.colon + [COLON], YieldElement(e), t);
    Assoc(m.before + m.key + m.colon, [COLON], YieldElement(e) + t);
    Assoc(m.before + m.key, m.colon, [COLON] + (YieldElement(e) + t));
    Assoc(m.before, m.key, m.colon + ([COLON] + (YieldElement(e) + t)));
  }

  lemma ElementText(e: Element, t: bytes)
    ensures YieldElement(e) + t == e.before + (YieldValue(e.value) + (e.after + t))
  {
    Assoc(e.before + YieldValue(e.value), e.after, t);
    Assoc(e.before, YieldValue(e.value), e.after + t);
  }

  /** The opening quote of a key. */
  lemma KeyFirst(q: Conf, key: bytes, t: bytes)
    requires AtKeyStart(q) && IsString(key)
    ensures (key + t)[0] == QUOTE == key[0] && Trans(q, QUOTE) == Go(q, InString, BeginLiteral)
    ensures (key + t)[1..] == key[1..] + t
    ensures Unquoted(key) == Some(StringValue(key))
  {
    StringUnquotes(key);
  }

  /** After a key: the colon, or white space before it. */
  lemma KeySteps(outer: seq<ParseState>, ms: Members, close: bytes)
    requires WfMembers(ms) && close != []
    ensures var p := Ended(outer + [ObjectKey]);
      var t := PastKey(ms, close);
      && t != [] && AfterOk(p.stack, t) && !p.endTop
      && Trans(p, COLON) == Out(Conf(BeginValue, outer + [ObjectValue], false), ObjectKeyDone, None)
      && (ms.m.colon == [] ==> t[0] == COLON && t[1..] == PastColon(ms, close))
      && (ms.m.colon != [] ==>
            && Trans(p, t[0]) == Out(p, SkipSpace, None)
            && t[1..] == ms.m.colon[1..] + ([COLON] + PastColon(ms, close))
            && Run(p, ms.m.colon[1..]) == p
            && forall i | 0 <= i < |ms.m.colon[1..]| :: Trace(p, ms.m.colon[1..])[i].op == SkipSpace)
  {
    hide Trans, Run, Trace, WfMembers, PastColon;
    Separators(outer);
    if ms.m.colon != [] {
      ColonSpaces(outer, ms);
    }
    PastKeyText(ms.m.colon, PastColon(ms, close));
  }

  lemma PastKeyText(colon: bytes, r: bytes)
    ensures var t := colon + ([COLON] + r);
      if colon == [] then t == [COLON] + r && t[0] == COLON && t[1..] == r
      else t[0] == colon[0] && t[1..] == colon[1..] + ([COLON] + r)
  {
  }

  lemma ColonSpaces(outer: seq<ParseState>, ms: Members)
    requires WfMembers(ms) && ms.m.colon != []
    ensures var p := Ended(outer + [ObjectKey]);
      var colon := ms.m.colon;
      && IsSpace(colon[0]) && Trans(p, colon[0]) == Out(p, SkipSpace, None)
      && Run(p, colon[1..]) == p && forall i | 0 <= i < |colon[1..]| :: Trace(p, colon[1..])[i].op == SkipSpace
  {
    hide YieldValue, WfValue, Run, Trace;
    var p := Ended(outer + [ObjectKey]);
    var colon := ms.m.colon;
    assert IsSpaces(colon[1..]) && colon[0] in colon;
    SpacesRead(p, colon[1..]);
    MarkOps(p, colon[1..], SkipSpace);
  }

  /** After a member: the brace, or a comma and the rest. */
  lemma MemberSteps(outer: seq<ParseState>, ms: Members, r: bytes, fields: map<bytes, Json>)
    requires WfMembers(ms)
    ensures var t := BeyondMember(ms, [RBRACE] + r);
      var now := fields[StringValue(ms.m.key) := Meaning(ms.m.e.value)];
      && t != [] && AfterOk(outer + [ObjectValue], ms.m.e.after + t)
      && (ms.LastMember? ==> Trans(Ended(outer + [ObjectValue]), t[0]) == Out(Ended(outer), EndObject, None)
                             && t[1..] == r && MeaningMembers(ms, fields) == now)
      && (ms.MoreMembers? ==>
            && Trans(Ended(outer + [ObjectValue]), t[0])
               == Out(Conf(BeginString, outer + [ObjectKey], false), ObjectValueDone, None)
            && t[1..] == YieldMembers(ms.others) + ([RBRACE] + r)
            && |YieldMembers(ms.others)| < |YieldMembers(ms)|
            && WfMembers(ms.others)
            && MeaningMembers(ms, fields) == MeaningMembers(ms.others, now))
  {
    hide YieldValue, WfValue, Meaning;
    Separators(outer);
    assert WfMember(ms.m) && WfElement(ms.m.e);
    GapFollows(ms.m.e.after);
    assert (outer + [ObjectValue])[..|outer|] == outer;
  }

  lemma ElementShorter(es: Elements)
    ensures |YieldValue(es.e.value)| <= |YieldElements(es)|
  {
    hide YieldValue;
    assert |YieldElement(es.e)| <= |YieldElements(es)|;
  }

  lemma MemberShorter(ms: Members)
    ensures |YieldValue(ms.m.e.value)| <= |YieldMembers(ms)|
  {
    hide YieldValue;
    assert |YieldElement(ms.m.e)| <= |YieldMember(ms.m)| <= |YieldMembers(ms)|;
  }

  /** The gap with which the rest of an array begins, and what follows the gap. */
  function TodoGap(t: Todo): bytes {
    if t.Close? then t.gap else t.es.e.before
  }

  function TodoRest(t: Todo, close: bytes): bytes {
    match t
    case Close(_) => close
    case Items(es) => YieldValue(es.e.value) + (es.e.after + Beyond(es, close))
  }

  /** The look-ahead in an array: a bracket, or the first byte of an element. */
  lemma TodoSteps(outer: seq<ParseState>, q: Conf, t: Todo, r: bytes)
    requires AtValueStart(q) && q.stack == outer + [ArrayValue] && TodoWf(q, t)
    ensures var close := [RBRACKET] + r;
      var g := TodoGap(t);
      var rest := TodoRest(t, close);
      && IsGap(g) && TodoText(t) + close == g + rest && rest != []
      && AtValueStart(GapEnd(q, g)) && GapEnd(q, g).stack == q.stack && Run(q, g) == GapEnd(q, g)
      && (forall i | 0 <= i < |g| :: Trace(q, g)[i].op == SkipSpace)
      && !Skips(Trans(GapEnd(q, g), rest[0]).op)
      && (t.Close? <==> Trans(GapEnd(q, g), rest[0]).op == EndArray)
      && (t.Close? ==> Trans(GapEnd(q, g), rest[0]).next == Ended(outer) && rest[1..] == r)
  {
    hide Trans, Run, Trace, IsGap, YieldValue;
    GapOf(q, t);
    GapRuns(q, TodoGap(t));
    StartsAgain(q, TodoGap(t));
    var p := GapEnd(q, TodoGap(t));
    match t
    case Close(_) =>
      BracketCloses(p, outer);
    case Items(es) =>
      ElementsText(es, [RBRACKET] + r);
      ValueFirst(p, es.e.value, es.e.after + Beyond(es, [RBRACKET] + r));
      ValueKinds(es.e.value);
  }

  lemma GapOf(q: Conf, t: Todo)
    requires TodoWf(q, t)
    ensures IsGap(TodoGap(t)) && (t.Items? ==> WfValue(t.es.e.value))
  {
    if t.Items? {
      ElementParts(t.es);
    }
  }

  lemma BracketCloses(p: Conf, outer: seq<ParseState>)
    requires p.stack == outer + [ArrayValue] && p.step.BeginValueOrEmpty? && !p.endTop
    ensures Trans(p, RBRACKET) == Out(Ended(outer), EndArray, None)
  {
    assert p.stack[..|p.stack| - 1] == outer;
  }

  /** The gap after an element or a member. */
  lemma AfterRuns(stack: seq<ParseState>, g: bytes)
    requires IsGap(g) && stack != [] && InValueContext(stack)
    ensures Run(Ended(stack), g) == Ended(stack)
    ensures forall i | 0 <= i < |g| :: Trace(Ended(stack), g)[i].op == SkipSpace
  {
    hide Trans, Run, Trace, IsGap;
    GapRuns(Ended(stack), g);
  }

  function MemberTodoGap(t: MemberTodo): bytes {
    if t.CloseObject? then t.spaces else t.ms.m.before
  }

  function MemberTodoRest(t: MemberTodo, close: bytes): bytes {
    match t
    case CloseObject(_) => close
    case Fields(ms) => ms.m.key + PastKey(ms, close)
  }

  /** The look-ahead in an object: a brace, or the opening quote of a key. */
  lemma MemberTodoSteps(outer: seq<ParseState>, q: Conf, t: MemberTodo, r: bytes)
    requires AtKeyStart(q) && q.stack == outer + [ObjectKey] && MemberTodoWf(q, t)
    ensures var close := [RBRACE] + r;
      var g := MemberTodoGap(t);
      var rest := MemberTodoRest(t, close);
      && MemberTodoText(t) + close == g + rest && rest != []
      && AtKeyStart(GapEnd(q, g)) && GapEnd(q, g).stack == q.stack && Run(q, g) == GapEnd(q, g)
      && (forall i | 0 <= i < |g| :: Trace(q, g)[i].op == SkipSpace)
      && (t.CloseObject? ==> Trans(GapEnd(q, g), rest[0]) == Out(Ended(outer), EndObject, None) && rest[1..] == r)
      && (t.Fields? ==>
            && IsString(t.ms.m.key)
            && Trans(GapEnd(q, g), rest[0]) == Go(GapEnd(q, g), InString, BeginLiteral)
            && rest[1..] == t.ms.m.key[1..] + PastKey(t.ms, close))
  {
    hide Trans, Run, Trace, IsGap, YieldValue;
    MemberGapOf(q, t);
    GapRuns(q, MemberTodoGap(t));
    var p := GapEnd(q, MemberTodoGap(t));
    match t
    case CloseObject(_) =>
      BraceCloses(p, outer);
    case Fields(ms) =>
      MembersText(ms, [RBRACE] + r);
      KeyFirst(p, ms.m.key, PastKey(ms, [RBRACE] + r));
  }

  lemma MemberGapOf(q: Conf, t: MemberTodo)
    requires AtKeyStart(q) && MemberTodoWf(q, t)
    ensures IsGap(MemberTodoGap(t)) && (t.Fields? ==> IsString(t.ms.m.key))
    ensures AtKeyStart(GapEnd(q, MemberTodoGap(t))) && GapEnd(q, MemberTodoGap(t)).stack == q.stack
    ensures t.CloseObject? ==> GapEnd(q, MemberTodoGap(t)) == q && q.step.BeginStringOrEmpty?
  {
    if t.CloseObject? {
      SpacesAreGap(t.spaces);
    } else {
      assert WfMember(t.ms.m);
    }
  }

  lemma BraceCloses(p: Conf, outer: seq<ParseState>)
    requires p.stack == outer + [ObjectKey] && p.step.BeginStringOrEmpty? && !p.endTop
    ensures Trans(p, RBRACE) == Out(Ended(outer), EndObject, None)
  {
    assert p.stack[..|p.stack| - 1] == outer;
  }

  lemma MemberParts(ms: Members)
    requires WfMembers(ms)
    ensures IsGap(ms.m.e.before) && WfValue(ms.m.e.value) && IsGap(ms.m.e.after)
  {
    hide WfValue;
    assert WfMember(ms.m) && WfElement(ms.m.e);
  }

  lemma ElementParts(es: Elements)
    requires WfElements(es)
    ensures IsGap(es.e.before) && WfValue(es.e.value) && IsGap(es.e.after)
  {
    hide WfValue;
    assert WfElement(es.e);
  }

  lemma StringIsLiteral(text: bytes)
    requires IsString(text)
    ensures IsLiteral(text) && text != []
  {
  }

  lemma NoGap()
    ensures IsGap([])
  {
  }

  lemma ClosedMeans(t: Todo)
    requires t.Close?
    ensures TodoMeaning(t) == []
  {
  }

  lemma ItemsMeans(t: Todo)
    requires t.Items?
    ensures TodoMeaning(t) == MeaningElements(t.es) && TodoText(t) == YieldElements(t.es)
  {
  }

  lemma ClosedObject(t: MemberTodo, fields: map<bytes, Json>)
    requires t.CloseObject?
    ensures MemberTodoMeaning(t, fields) == fields
  {
  }

  lemma FieldsMean(ms: Members, fields: map<bytes, Json>)
    ensures MemberTodoMeaning(Fields(ms), fields) == MeaningMembers(ms, fields)
    ensures MemberTodoText(Fields(ms)) == YieldMembers(ms)
  {
  }

  lemma NextIsStart(outer: seq<ParseState>)
    ensures AtValueStart(Conf(BeginValue, outer + [ArrayValue], false))
  {
  }

  lemma FirstIsStart(outer: seq<ParseState>)
    ensures AtValueStart(Conf(BeginValueOrEmpty, outer + [ArrayValue], false))
    ensures AtKeyStart(Conf(BeginStringOrEmpty, outer + [ObjectKey], false))
  {
  }

  /** One element moves from the rest of an array to its items. */
  lemma ItemMeans(es: Elements, items: seq<Json>)
    ensures es.Last? ==> items + MeaningElements(es) == items + [Meaning(es.e.value)]
    ensures !es.Last? ==> items + MeaningElements(es) == items + [Meaning(es.e.value)] + TodoMeaning(AfterComma(es))
  {
    hide Meaning;
  }

  // ---------- whole texts ----------

  /** Neither a text nor a gap kills the scanner. */
  lemma InputAhead(s: bytes)
    requires IsJson(s) || IsGap(s)
    ensures !Dies(INIT, s) && s[0..] == s
  {
    hide Trans, IsGap;
    Language(s);
    if IsGap(s) {
      GapReads(INIT, s);
    }
  }

  lemma GapIsNoJson(s: bytes)
    requires IsGap(s)
    ensures !IsJson(s)
  {
    hide Trans, Run, IsGap;
    Language(s);
    GapReads(INIT, s);
    StartsAgain(INIT, s);
    NothingThere(GapEnd(INIT, s));
  }

  lemma DocumentParts(d: Document)
    requires WfDocument(d)
    ensures Yield(d) == d.before + (YieldValue(d.value) + d.after)
    ensures IsGap(d.before) && WfValue(d.value) && AfterOk([], d.after)
  {
    hide YieldValue, WfValue, IsGap;
    Assoc(d.before, YieldValue(d.value), d.after);
    if d.after != [] {
      assert d.after[0] in d.after;
    }
  }

  /** What the encoder quotes is a text, and it means the string up to malformed bytes. */
  lemma QuotedMeans(s: bytes)
    ensures var d := Document([], Literal(Quoted(s)), []);
      WfDocument(d) && Yield(d) == Quoted(s) && Meaning(d.value) == JString(Coerce(s)) && IsJson(Quoted(s))
  {
    hide IsLiteral, IsGap, IsSpaces, Unquoted, Coerce, MeaningLiteral;
    QuotedIsString(s);
    StringIsLiteral(Quoted(s));
    QuotedValue(s);
    LiteralDocument(Quoted(s));
  }

  lemma QuotedValue(s: bytes)
    ensures MeaningLiteral(Quoted(s)) == JString(Coerce(s))
  {
    hide Unquoted, Coerce;
    RoundTrip(s);
    QuotedIsString(s);
  }

  lemma LiteralDocument(text: bytes)
    requires IsLiteral(text)
    ensures var d := Document([], Literal(text), []); WfDocument(d) && Yield(d) == text
  {
    hide IsLiteral;
    NoGap();
    Unit(text);
  }
}
