/** Which inputs the scanner still gives a chance: exactly those that some continuation makes a text. */
module Viability {
  import opened Bytes
  import opened Scanning
  import opened Grammar
  import opened Recognition
  import opened Soundness

  /** Some continuation makes a text of it. */
  ghost predicate Viable(s: bytes) {
    exists t: bytes :: IsJson(s + t)
  }

  // ---------- finishing what has been started ----------

  /** How many bytes are missing until a value, a key or a comment is over. */
  function Missing(step: Step): nat {
    match step
    case InString => 1
    case InStringEsc => 2
    case InStringEscU123 => 2
    case InStringEscU12 => 3
    case InStringEscU1 => 4
    case InStringEscU => 5
    case Neg => 1
    case Point => 1
    case Exp => 1
    case ExpSign => 1
    case Tru => 1
    case Tr => 2
    case T => 3
    case Fals => 1
    case Fal => 2
    case Fa => 3
    case F => 4
    case Nul => 1
    case Nu => 2
    case N => 3
    case BeginValue => 1
    case BeginValueOrEmpty => 1
    case BeginString => 2
    case BeginStringOrEmpty => 2
    case InCommentAtBeginValue => 2
    case InCommentAtBeginString => 3
    case InCommentAtEndValue => 1
    case InCommentAtEndArrayValue => 1
    case MaybeCommentAtBeginValue => 3
    case MaybeCommentAtBeginString => 4
    case MaybeCommentAtEndValue => 2
    case MaybeCommentAtEndArrayValue => 2
    case _ => 0
  }

  /** A byte that brings the step closer to that. */
  function Nudge(step: Step): byte {
    if Letter(step).Some? then Letter(step).value.0
    else match step
      case InString => QUOTE
      case InStringEsc => LOWER_N
      case BeginString => QUOTE
      case BeginStringOrEmpty => QUOTE
      case InCommentAtBeginValue => NEWLINE
      case InCommentAtBeginString => NEWLINE
      case InCommentAtEndValue => NEWLINE
      case InCommentAtEndArrayValue => NEWLINE
      case MaybeCommentAtBeginValue => SLASH
      case MaybeCommentAtBeginString => SLASH
      case MaybeCommentAtEndValue => SLASH
      case MaybeCommentAtEndArrayValue => SLASH
      case _ => ZERO
  }

  /** The nudge keeps a literal going, and brings it closer to its end. */
  predicate Nudges(step: Step)
    requires InLiteral(step)
  {
    var l := Lex(step, Nudge(step));
    l.Goto? && Missing(l.step) < Missing(step) && !l.step.Dead?
  }

  lemma NudgeLiteral(q: Conf)
    requires InLiteral(q.step) && Missing(q.step) > 0
    ensures Nudges(q.step)
  {
    hide Nudges, Lex, Missing, WantsDigit;
    if Letter(q.step).Some? {
      NudgeWord(q.step);
    } else if KindOf(q.step) == AtString {
      NudgeString(q.step);
    } else {
      OnlyNumbersLeft(q.step);
      NudgeNumber(q.step);
    }
  }

  lemma NudgeWord(step: Step)
    requires InLiteral(step) && Letter(step).Some?
    ensures Nudges(step)
  {
  }

  lemma NudgeString(step: Step)
    requires InLiteral(step) && KindOf(step) == AtString
    ensures Nudges(step)
  {
  }

  /** The places where a number wants another digit. */
  predicate WantsDigit(step: Step) {
    step.Neg? || step.Point? || step.Exp? || step.ExpSign?
  }

  lemma NudgeNumber(step: Step)
    requires WantsDigit(step)
    ensures Nudges(step)
  {
  }

  lemma OnlyNumbersLeft(step: Step)
    requires InLiteral(step) && Letter(step).None? && KindOf(step) != AtString && Missing(step) > 0
    ensures WantsDigit(step)
  {
  }

  lemma NudgeElsewhere(q: Conf)
    requires !InLiteral(q.step) && Missing(q.step) > 0
    ensures var p := Trans(q, Nudge(q.step)).next;
      p == q.(step := p.step) && Missing(p.step) < Missing(q.step) && !p.step.Dead?
  {
  }

  lemma NudgeStep(q: Conf)
    requires Missing(q.step) > 0
    ensures var p := Trans(q, Nudge(q.step)).next;
      p == q.(step := p.step) && Missing(p.step) < Missing(q.step) && !p.step.Dead?
  {
    hide Trans, Missing;
    if InLiteral(q.step) {
      hide Lex, Nudge;
      TransInLiteral(q, Nudge(q.step));
      NudgeLiteral(q);
    } else {
      NudgeElsewhere(q);
    }
  }

  /** A scanner that is alive can be brought to the end of what it is in. */
  lemma {:induction false} Finish(q: Conf) returns (w: bytes)
    requires Fits(q) && !q.step.Dead?
    ensures Settle(Run(q, w)) == Ended(q.stack)
    decreases Missing(q.step)
  {
    hide Trans;
    if Missing(q.step) == 0 {
      w := [];
      Finished(q);
    } else {
      NudgeStep(q);
      FitsStep(q, Nudge(q.step));
      var p := Trans(q, Nudge(q.step)).next;
      hide Missing, Nudge, Fits;
      var rest := Finish(p);
      w := [Nudge(q.step)] + rest;
      assert w[1..] == rest;
    }
  }

  lemma Finished(q: Conf)
    requires Fits(q) && !q.step.Dead? && Missing(q.step) == 0
    ensures Settle(q) == Ended(q.stack)
  {
  }

  // ---------- closing what is open ----------

  /** Closes every open composite, the innermost first; a key still wants its value. */
  function Closing(stack: seq<ParseState>): bytes {
    if stack == [] then []
    else
      var rest := Closing(stack[..|stack| - 1]);
      match stack[|stack| - 1]
      case ObjectKey => [COLON, ZERO, RBRACE] + rest
      case ObjectValue => [RBRACE] + rest
      case ArrayValue => [RBRACKET] + rest
  }

  lemma CloseComposite(outer: seq<ParseState>, p: ParseState)
    requires !p.ObjectKey?
    ensures p.ArrayValue? ==> Trans(Ended(outer + [p]), RBRACKET).next == Ended(outer)
    ensures p.ObjectValue? ==> Trans(Ended(outer + [p]), RBRACE).next == Ended(outer)
  {
    LastOff(outer, p);
  }

  lemma KeyWants(outer: seq<ParseState>)
    ensures Trans(Trans(Trans(Ended(outer + [ObjectKey]), COLON).next, ZERO).next, RBRACE).next == Ended(outer)
  {
    hide Trans;
    var q := Conf(BeginValue, outer + [ObjectValue], false);
    Separators(outer);
    LiteralStep(q, ZERO);
    SettleStep(q.(step := Int0), RBRACE);
    CloseComposite(outer, ObjectValue);
  }

  lemma {:induction false} CloseAll(stack: seq<ParseState>)
    ensures Accepts(Ended(stack), Closing(stack))
    decreases |stack|
  {
    hide Trans, Accepts, Ended;
    if stack == [] {
      CloseNothing();
    } else {
      var n := |stack| - 1;
      var outer := stack[..n];
      assert stack == outer + [stack[n]];
      CloseAll(outer);
      if stack[n].ObjectKey? {
        CloseKey(outer, Closing(outer));
      } else if stack[n].ObjectValue? {
        CloseComposite(outer, ObjectValue);
        AcceptsStep(Ended(stack), RBRACE, Closing(outer));
      } else {
        CloseComposite(outer, ArrayValue);
        AcceptsStep(Ended(stack), RBRACKET, Closing(outer));
      }
    }
  }

  lemma CloseNothing()
    ensures Accepts(Ended([]), [])
  {
    hide Trans;
    SettledEof(Ended([]));
  }

  lemma CloseKey(outer: seq<ParseState>, rest: bytes)
    requires Accepts(Ended(outer), rest)
    ensures Accepts(Ended(outer + [ObjectKey]), [COLON, ZERO, RBRACE] + rest)
  {
    hide Trans, Accepts, Ended;
    var q := Ended(outer + [ObjectKey]);
    KeyWants(outer);
    assert [COLON, ZERO, RBRACE] + rest == [COLON] + ([ZERO] + ([RBRACE] + rest));
    AcceptsStep(q, COLON, [ZERO] + ([RBRACE] + rest));
    AcceptsStep(Trans(q, COLON).next, ZERO, [RBRACE] + rest);
    AcceptsStep(Trans(Trans(q, COLON).next, ZERO).next, RBRACE, rest);
  }

  lemma AcceptsStep(q: Conf, c: byte, s: bytes)
    ensures Accepts(q, [c] + s) <==> Accepts(Trans(q, c).next, s)
  {
    hide Trans;
    assert ([c] + s)[1..] == s;
  }

  lemma ClosingStarts(stack: seq<ParseState>)
    ensures var s := Closing(stack); s == [] <==> stack == []
    ensures var s := Closing(stack); s != [] ==> !NumberChar(s[0])
  {
  }

  /** A scanner that is alive accepts some continuation. */
  lemma Completes(q: Conf) returns (t: bytes)
    requires Fits(q) && !q.step.Dead?
    ensures Accepts(q, t)
  {
    hide Trans, Fits, Closing, NumberChar;
    var w := Finish(q);
    t := w + Closing(q.stack);
    var p := Run(q, w);
    ClosingStarts(q.stack);
    CloseAll(q.stack);
    RunSplit(q, w, Closing(q.stack));
    if q.stack == [] {
      SettledEof(p);
    } else {
      SettleStep(p, Closing(q.stack)[0]);
    }
  }

  /** The viable-prefix theorem: the scanner has met an error exactly when no continuation is a text. */
  lemma ViablePrefix(s: bytes)
    ensures !Run(INIT, s).step.Dead? <==> Viable(s)
  {
    assert Fits(INIT);
    hide Trans, Fits;
    RunFits(INIT, s);
    if !Run(INIT, s).step.Dead? {
      var t := Completes(Run(INIT, s));
      RunSplit(INIT, s, t);
      Language(s + t);
    }
    if Viable(s) {
      var t :| IsJson(s + t);
      Language(s + t);
      assert (s + t)[..|s|] == s;
      if Run(INIT, s).step.Dead? {
        DeadPrefix(INIT, s + t, |s|);
      }
    }
  }
}
