/** The transition relation of the byte-driven scanner (common/json/scanner.go). */
module Scanning {
  import opened Bytes

  /** What the scanner is in the middle of: the entries of `parseState`, outermost first. */
  datatype ParseState = ObjectKey | ObjectValue | ArrayValue

  /** The opcodes a transition returns. */
  datatype Op =
    | Continue | BeginLiteral | BeginObject | ObjectKeyDone | ObjectValueDone | EndObject
    | BeginArray | ArrayValueDone | EndArray | SkipSpace | End | Failed

  /** `op >= scanSkipSpace`: a byte that belongs to no token. */
  predicate Skips(op: Op) {
    op.SkipSpace? || op.End? || op.Failed?
  }

  /** The names of the state functions a scanner's `step` field can hold. */
  datatype Step =
    | BeginValueOrEmpty | BeginValue | BeginStringOrEmpty | BeginString
    | MaybeCommentAtBeginValue | InCommentAtBeginValue
    | MaybeCommentAtBeginString | InCommentAtBeginString
    | MaybeCommentAtEndValue | InCommentAtEndValue
    | MaybeCommentAtEndArrayValue | InCommentAtEndArrayValue
    | EndValue | EndTop
    | InString | InStringEsc | InStringEscU | InStringEscU1 | InStringEscU12 | InStringEscU123
    | Neg | Int1 | Int0 | Point | Point0 | Exp | ExpSign | Exp0
    | T | Tr | Tru | F | Fa | Fal | Fals | N | Nu | Nul
    | Dead | Redo

  /** Where in the text a byte was found to be invalid. */
  datatype Context =
    | LookingForValue | LookingForKey | AfterKey | AfterMember | AfterElement | AfterTop
    | InStringLiteral | InEscape | InHexEscape | InNumber | AfterPoint | InExponent
    | InTrue | InFalse | InNull

  datatype Complaint = Complaint(c: byte, context: Context)

  /** The part of the scanner that decides its language. */
  datatype Conf = Conf(step: Step, stack: seq<ParseState>, endTop: bool)

  datatype Out = Out(next: Conf, op: Op, complaint: Option<Complaint>)

  const INIT := Conf(BeginValue, [], false)

  // ---------- one step ----------

  function Go(q: Conf, step: Step, op: Op): Out {
    Out(q.(step := step), op, None)
  }

  function Reject(q: Conf, c: byte, context: Context): Out {
    Out(q.(step := Dead), Failed, Some(Complaint(c, context)))
  }

  function Pop(q: Conf, op: Op): Out
    requires q.stack != []
  {
    Out(Ended(q.stack[..|q.stack| - 1]), op, None)
  }

  /** The configuration right after a value that stands in context `stack`. */
  function Ended(stack: seq<ParseState>): Conf {
    if stack == [] then Conf(EndTop, [], true) else Conf(EndValue, stack, false)
  }

  function Push(q: Conf, p: ParseState): Conf {
    q.(stack := q.stack + [p])
  }

  function SetTop(q: Conf, p: ParseState): Conf
    requires q.stack != []
  {
    q.(stack := q.stack[..|q.stack| - 1] + [p])
  }

  /** How a byte continues a literal: it stays inside, ends before the byte, or is malformed. */
  datatype Lexed = Goto(step: Step) | Leave | Bad(context: Context)

  function LexOne(c: byte, expected: byte, step: Step, context: Context): Lexed {
    if c == expected then Goto(step) else Bad(context)
  }

  function LexHex(c: byte, step: Step): Lexed {
    if IsHex(c) then Goto(step) else Bad(InHexEscape)
  }

  function LexInt0(c: byte): Lexed {
    if c == DOT then Goto(Point) else if c == LOWER_E || c == UPPER_E then Goto(Exp) else Leave
  }

  function LexExpSign(c: byte): Lexed {
    if IsDigit(c) then Goto(Exp0) else Bad(InExponent)
  }

  predicate InLiteral(step: Step) {
    || step.InString? || step.InStringEsc? || step.InStringEscU? || step.InStringEscU1?
    || step.InStringEscU12? || step.InStringEscU123?
    || step.Neg? || step.Int1? || step.Int0? || step.Point? || step.Point0?
    || step.Exp? || step.ExpSign? || step.Exp0?
    || step.T? || step.Tr? || step.Tru? || step.F? || step.Fa? || step.Fal? || step.Fals?
    || step.N? || step.Nu? || step.Nul?
  }

  function Lex(step: Step, c: byte): Lexed
    requires InLiteral(step)
  {
    match step
    case InString =>
      if c == QUOTE then Goto(EndValue)
      else if c == BACKSLASH then Goto(InStringEsc)
      else if c < SPACE then Bad(InStringLiteral)
      else Goto(InString)
    case InStringEsc =>
      if IsEscapeLetter(c) then Goto(InString)
      else if c == LOWER_U then Goto(InStringEscU)
      else Bad(InEscape)
    case InStringEscU => LexHex(c, InStringEscU1)
    case InStringEscU1 => LexHex(c, InStringEscU12)
    case InStringEscU12 => LexHex(c, InStringEscU123)
    case InStringEscU123 => LexHex(c, InString)
    case Neg => if c == ZERO then Goto(Int0) else if IsDigit(c) then Goto(Int1) else Bad(InNumber)
    case Int1 => if IsDigit(c) then Goto(Int1) else LexInt0(c)
    case Int0 => LexInt0(c)
    case Point => if IsDigit(c) then Goto(Point0) else Bad(AfterPoint)
    case Point0 =>
      if IsDigit(c) then Goto(Point0) else if c == LOWER_E || c == UPPER_E then Goto(Exp) else Leave
    case Exp => if c == PLUS || c == MINUS then Goto(ExpSign) else LexExpSign(c)
    case ExpSign => LexExpSign(c)
    case Exp0 => if IsDigit(c) then Goto(Exp0) else Leave
    case T => LexOne(c, LOWER_R, Tr, InTrue)
    case Tr => LexOne(c, LOWER_U, Tru, InTrue)
    case Tru => LexOne(c, LOWER_E, EndValue, InTrue)
    case F => LexOne(c, LOWER_A, Fa, InFalse)
    case Fa => LexOne(c, LOWER_L, Fal, InFalse)
    case Fal => LexOne(c, LOWER_S, Fals, InFalse)
    case Fals => LexOne(c, LOWER_E, EndValue, InFalse)
    case N => LexOne(c, LOWER_U, Nu, InNull)
    case Nu => LexOne(c, LOWER_L, Nul, InNull)
    case Nul => LexOne(c, LOWER_L, EndValue, InNull)
  }

  function EndTopOut(q: Conf, c: byte): Out {
    if IsSpace(c) then Out(q, End, None) else Out(q.(step := Dead), End, Some(Complaint(c, AfterTop)))
  }

  function EndValueOut(q: Conf, c: byte): Out {
    if q.stack == [] then EndTopOut(Conf(EndTop, [], true), c)
    else if IsSpace(c) then Go(q, EndValue, SkipSpace)
    else match q.stack[|q.stack| - 1]
      case ObjectKey =>
        if c == COLON then Go(SetTop(q, ObjectValue), BeginValue, ObjectKeyDone)
        else Reject(q, c, AfterKey)
      case ObjectValue =>
        if c == COMMA then Go(SetTop(q, ObjectKey), BeginString, ObjectValueDone)
        else if c == RBRACE then Pop(q, EndObject)
        else if c == SLASH then Go(q, MaybeCommentAtEndValue, SkipSpace)
        else Reject(q, c, AfterMember)
      case ArrayValue =>
        if c == COMMA then Go(q, BeginValue, ArrayValueDone)
        else if c == RBRACKET then Pop(q, EndArray)
        else if c == SLASH then Go(q, MaybeCommentAtEndArrayValue, SkipSpace)
        else Reject(q, c, AfterElement)
  }

  function BeginValueOut(q: Conf, c: byte): Out {
    if IsSpace(c) then Go(q, q.step, SkipSpace)
    else if c == LBRACE then Go(Push(q, ObjectKey), BeginStringOrEmpty, BeginObject)
    else if c == LBRACKET then Go(Push(q, ArrayValue), BeginValueOrEmpty, BeginArray)
    else if c == QUOTE then Go(q, InString, BeginLiteral)
    else if c == MINUS then Go(q, Neg, BeginLiteral)
    else if c == ZERO then Go(q, Int0, BeginLiteral)
    else if c == LOWER_T then Go(q, T, BeginLiteral)
    else if c == LOWER_F then Go(q, F, BeginLiteral)
    else if c == LOWER_N then Go(q, N, BeginLiteral)
    else if c == SLASH then Go(q, MaybeCommentAtBeginValue, SkipSpace)
    else if IsDigit(c) then Go(q, Int1, BeginLiteral)
    else Reject(q, c, LookingForValue)
  }

  function BeginStringOut(q: Conf, c: byte): Out {
    if IsSpace(c) then Go(q, q.step, SkipSpace)
    else if c == SLASH then Go(q, MaybeCommentAtBeginString, SkipSpace)
    else if c == QUOTE then Go(q, InString, BeginLiteral)
    else Reject(q, c, LookingForKey)
  }

  /** The second slash of a comment. */
  function OpenComment(q: Conf, c: byte, inside: Step, context: Context): Out {
    if c == SLASH then Go(q, inside, SkipSpace) else Reject(q, SLASH, context)
  }

  /** A byte inside a comment; a newline leads back to `after`. */
  function InComment(q: Conf, c: byte, after: Step): Out {
    Go(q, if c == NEWLINE then after else q.step, SkipSpace)
  }

  function LiteralOut(q: Conf, c: byte): Out
    requires InLiteral(q.step)
  {
    match Lex(q.step, c)
    case Goto(step) => Go(q, step, Continue)
    case Leave => EndValueOut(q, c)
    case Bad(context) => Reject(q, c, context)
  }

  /** One transition of the scanner on byte `c`. */
  function Trans(q: Conf, c: byte): Out {
    match q.step
    case BeginValueOrEmpty => if c == RBRACKET then EndValueOut(q, c) else BeginValueOut(q, c)
    case BeginValue => BeginValueOut(q, c)
    case BeginStringOrEmpty =>
      // the stack is never empty here (FitsStep)
      if c == RBRACE && q.stack != [] then Pop(q, EndObject) else BeginStringOut(q, c)
    case BeginString => BeginStringOut(q, c)
    case MaybeCommentAtBeginValue => OpenComment(q, c, InCommentAtBeginValue, LookingForValue)
    case InCommentAtBeginValue => InComment(q, c, BeginValueOrEmpty)
    case MaybeCommentAtBeginString => OpenComment(q, c, InCommentAtBeginString, LookingForKey)
    case InCommentAtBeginString => InComment(q, c, BeginString)
    case MaybeCommentAtEndValue => OpenComment(q, c, InCommentAtEndValue, AfterMember)
    case InCommentAtEndValue => InComment(q, c, EndValue)
    case MaybeCommentAtEndArrayValue => OpenComment(q, c, InCommentAtEndArrayValue, AfterElement)
    case InCommentAtEndArrayValue => InComment(q, c, EndValue)
    case EndValue => EndValueOut(q, c)
    case EndTop => EndTopOut(q, c)
    case Dead => Out(q, Failed, None)
    case Redo => Out(q, Failed, None)  // a scanner about to redo is not in a configuration of its own
    case _ => LiteralOut(q, c)
  }

  lemma TransInLiteral(q: Conf, c: byte)
    requires InLiteral(q.step)
    ensures Trans(q, c) == LiteralOut(q, c)
  {
  }

  // ---------- runs ----------

  /** A byte together with the opcode the scanner returned for it. */
  datatype Event = Event(c: byte, op: Op)

  function Run(q: Conf, s: bytes): Conf
    decreases s
  {
    if s == [] then q else Run(Trans(q, s[0]).next, s[1..])
  }

  function Trace(q: Conf, s: bytes): (es: seq<Event>)
    ensures |es| == |s|
    decreases s
  {
    if s == [] then [] else [Event(s[0], Trans(q, s[0]).op)] + Trace(Trans(q, s[0]).next, s[1..])
  }

  lemma {:induction false} RunSplit(q: Conf, a: bytes, b: bytes)
    ensures Run(q, a + b) == Run(Run(q, a), b)
    ensures Trace(q, a + b) == Trace(q, a) + Trace(Run(q, a), b)
    decreases a
  {
    if a == [] {
      assert a + b == b;
    } else {
      assert (a + b)[1..] == a[1..] + b;
      RunSplit(Trans(q, a[0]).next, a[1..], b);
    }
  }

  /** The scanner has taken the bytes before `i`: what byte `i` does next. */
  lemma RunAt(q: Conf, s: bytes, i: nat)
    requires i < |s|
    ensures Trace(q, s)[i] == Event(s[i], Trans(Run(q, s[..i]), s[i]).op)
    ensures Run(q, s[..i + 1]) == Trans(Run(q, s[..i]), s[i]).next
    ensures Trace(q, s[..i + 1]) == Trace(q, s[..i]) + [Trace(q, s)[i]]
  {
    var p := Run(q, s[..i]);
    assert s == s[..i] + s[i..] && s[..i + 1] == s[..i] + [s[i]];
    RunSplit(q, s[..i], s[i..]);
    RunSplit(q, s[..i], [s[i]]);
    assert Run(p, [s[i]]) == Run(Trans(p, s[i]).next, [s[i]][1..]);
  }

  /** The verdict of `eof` in a configuration: one imaginary space may still end the top-level value. */
  predicate EofOk(q: Conf) {
    !q.step.Dead? && (q.endTop || Trans(q, SPACE).next.endTop)
  }

  predicate Accepts(q: Conf, s: bytes) {
    EofOk(Run(q, s))
  }

  lemma {:induction false} DeadForever(q: Conf, s: bytes)
    requires q.step.Dead?
    ensures Run(q, s) == q && forall i | 0 <= i < |s| :: Trace(q, s)[i].op == Failed
    decreases s
  {
    if s != [] {
      DeadForever(q, s[1..]);
    }
  }

  /** A run that has died inside `s` has died at its end. */
  lemma DeadPrefix(q: Conf, s: bytes, n: nat)
    requires n <= |s| && Run(q, s[..n]).step.Dead?
    ensures Run(q, s).step.Dead? && !Accepts(q, s)
  {
    assert s == s[..n] + s[n..];
    RunSplit(q, s[..n], s[n..]);
    DeadForever(Run(q, s[..n]), s[n..]);
  }

  /** Where the first whole value of `s` ends: one byte before `scanEnd`, or with the input. */
  function Cut(q: Conf, s: bytes): (n: Option<nat>)
    ensures n.Some? ==> n.value <= |s|
    decreases s
  {
    if s == [] then (if EofOk(q) then Some(0) else None)
    else
      var out := Trans(q, s[0]);
      if out.op.End? then Some(0)
      else if out.op.Failed? then None
      else CutAfter(1, Cut(out.next, s[1..]))
  }

  function CutAfter(i: nat, cut: Option<nat>): Option<nat> {
    match cut
    case None => None
    case Some(n) => Some(i + n)
  }

  lemma CutAfterNone(cut: Option<nat>)
    ensures CutAfter(0, cut) == cut
  {
  }

  lemma CutAfterStep(n: nat, cut: Option<nat>)
    ensures CutAfter(n, Some(0)) == Some(n) && CutAfter(n, None) == None
    ensures CutAfter(n, CutAfter(1, cut)) == CutAfter(n + 1, cut)
  {
  }

  lemma CutStep(q: Conf, s: bytes)
    requires s != []
    ensures var out := Trans(q, s[0]);
      Cut(q, s) == if out.op.End? then Some(0) else if out.op.Failed? then None else CutAfter(1, Cut(out.next, s[1..]))
  {
    hide Trans;
  }

  // ---------- what every run keeps ----------

  /** What a step expects the innermost stack entry to be. */
  datatype Kind = AtValue | AtKey | AtString | AtMember | AtElement | AtEnd | AtTop | AtDead | AtRedo

  function KindOf(step: Step): Kind {
    match step
    case BeginStringOrEmpty => AtKey
    case BeginString => AtKey
    case MaybeCommentAtBeginString => AtKey
    case InCommentAtBeginString => AtKey
    case MaybeCommentAtEndValue => AtMember
    case InCommentAtEndValue => AtMember
    case MaybeCommentAtEndArrayValue => AtElement
    case InCommentAtEndArrayValue => AtElement
    case InString => AtString
    case InStringEsc => AtString
    case InStringEscU => AtString
    case InStringEscU1 => AtString
    case InStringEscU12 => AtString
    case InStringEscU123 => AtString
    case EndValue => AtEnd
    case EndTop => AtTop
    case Dead => AtDead
    case Redo => AtRedo
    case _ => AtValue
  }

  /** Only the innermost entry can be an object key. */
  predicate Nested(stack: seq<ParseState>) {
    forall i | 0 <= i < |stack| - 1 :: stack[i] != ObjectKey
  }

  predicate InValueContext(stack: seq<ParseState>) {
    stack == [] || stack[|stack| - 1] != ObjectKey
  }

  predicate Inside(stack: seq<ParseState>, p: ParseState) {
    stack != [] && stack[|stack| - 1] == p
  }

  predicate KindFits(kind: Kind, stack: seq<ParseState>, endTop: bool) {
    match kind
    case AtValue => InValueContext(stack)
    case AtKey => Inside(stack, ObjectKey)
    case AtMember => Inside(stack, ObjectValue)
    case AtElement => Inside(stack, ArrayValue)
    case AtTop => endTop
    case AtRedo => false
    case _ => true
  }

  /** The top of the stack fits the step, and a finished top-level value leaves the stack empty. */
  predicate Fits(q: Conf) {
    && Nested(q.stack)
    && (q.endTop ==> q.stack == [] && (q.step.EndTop? || q.step.Dead?))
    && KindFits(KindOf(q.step), q.stack, q.endTop)
  }

  lemma StartFits()
    ensures Fits(INIT)
  {
  }

  /** What each transition keeps and how it moves the stack. */
  predicate StepsWell(q: Conf, out: Out) {
    && Fits(out.next)
    && |out.next.stack| == |q.stack| + Begins(out.op)
    && (out.op.Failed? ==> out.next.step.Dead?)
    && (out.complaint.Some? <==> out.next.step.Dead? && !q.step.Dead?)
    && (q.step.Dead? ==> out.next.step.Dead?)
  }

  function Begins(op: Op): int {
    if op.BeginObject? || op.BeginArray? then 1 else if op.EndObject? || op.EndArray? then -1 else 0
  }

  lemma FitsEndValue(q: Conf, c: byte)
    requires Nested(q.stack) && !q.endTop && !q.step.Dead?
    ensures StepsWell(q, EndValueOut(q, c))
  {
  }

  lemma FitsGoto(q: Conf, step: Step)
    requires Fits(q) && InLiteral(q.step) && (KindOf(step) == AtEnd || KindOf(step) == KindOf(q.step))
    ensures StepsWell(q, Go(q, step, Continue))
  {
  }

  lemma FitsReject(q: Conf, c: byte, context: Context)
    requires Fits(q) && InLiteral(q.step)
    ensures StepsWell(q, Reject(q, c, context))
  {
  }

  lemma FitsLiteral(q: Conf, c: byte)
    requires Fits(q) && InLiteral(q.step)
    ensures StepsWell(q, LiteralOut(q, c))
  {
    hide Lex, EndValueOut, StepsWell;
    match Lex(q.step, c)
    case Goto(step) =>
      LexKeepsKind(q.step, c);
      FitsGoto(q, step);
    case Leave => FitsEndValue(q, c);
    case Bad(context) => FitsReject(q, c, context);
  }

  lemma LexKeepsKind(step: Step, c: byte)
    requires InLiteral(step) && Lex(step, c).Goto?
    ensures KindOf(Lex(step, c).step) == AtEnd || KindOf(Lex(step, c).step) == KindOf(step)
  {
    hide Lex;
    if KindOf(step) == AtString {
      LexKeepsString(step, c);
    } else {
      LexKeepsValue(step, c);
    }
  }

  lemma LexKeepsString(step: Step, c: byte)
    requires KindOf(step) == AtString && InLiteral(step) && Lex(step, c).Goto?
    ensures KindOf(Lex(step, c).step) == AtEnd || KindOf(Lex(step, c).step) == AtString
  {
  }

  lemma LexKeepsValue(step: Step, c: byte)
    requires KindOf(step) == AtValue && InLiteral(step) && Lex(step, c).Goto?
    ensures KindOf(Lex(step, c).step) == AtEnd || KindOf(Lex(step, c).step) == AtValue
  {
  }

  lemma FitsBeginValue(q: Conf, c: byte)
    requires Fits(q) && (q.step.BeginValue? || q.step.BeginValueOrEmpty?)
    ensures StepsWell(q, Trans(q, c))
  {
    FitsOpening(q, c);
    if q.step.BeginValueOrEmpty? && c == RBRACKET {
      FitsEndValue(q, c);
    }
    hide StepsWell, BeginValueOut, EndValueOut;
  }

  lemma FitsOpening(q: Conf, c: byte)
    requires Fits(q) && (q.step.BeginValue? || q.step.BeginValueOrEmpty?)
    ensures StepsWell(q, BeginValueOut(q, c))
  {
  }

  lemma FitsBeginString(q: Conf, c: byte)
    requires Fits(q) && (q.step.BeginString? || q.step.BeginStringOrEmpty?)
    ensures StepsWell(q, Trans(q, c))
  {
  }

  /** The remaining steps: comments, the end of the input, and the dead state. */
  lemma FitsComment(q: Conf, c: byte)
    requires Fits(q) && !InLiteral(q.step) && !q.step.EndValue?
    requires !q.step.BeginValue? && !q.step.BeginValueOrEmpty?
    requires !q.step.BeginString? && !q.step.BeginStringOrEmpty?
    ensures StepsWell(q, Trans(q, c))
  {
  }

  lemma FitsStep(q: Conf, c: byte)
    requires Fits(q)
    ensures StepsWell(q, Trans(q, c))
  {
    match q.step
    case BeginValue => FitsBeginValue(q, c);
    case BeginValueOrEmpty => FitsBeginValue(q, c);
    case BeginString => FitsBeginString(q, c);
    case BeginStringOrEmpty => FitsBeginString(q, c);
    case EndValue => FitsEndValue(q, c);
    case _ =>
      if InLiteral(q.step) {
        FitsLiteral(q, c);
        TransInLiteral(q, c);
      } else {
        FitsComment(q, c);
      }
  }

  /** Opened minus closed composites in an event list. */
  function Balance(es: seq<Event>): int {
    if es == [] then 0 else Begins(es[0].op) + Balance(es[1..])
  }

  /** Every run from a fitting configuration fits, and its stack depth is the balance of its opcodes. */
  lemma {:induction false} RunFits(q: Conf, s: bytes)
    requires Fits(q)
    ensures Fits(Run(q, s))
    ensures |Run(q, s).stack| == |q.stack| + Balance(Trace(q, s))
    decreases s
  {
    if s != [] {
      var out := Trans(q, s[0]);
      FitsStep(q, s[0]);
      RunFits(out.next, s[1..]);
      assert Trace(q, s)[1..] == Trace(out.next, s[1..]);
    }
  }
}
