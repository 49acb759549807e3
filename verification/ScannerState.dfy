/** The scanner object of common/json/scanner.go, and the two loops that live beside it. */
module ScannerState {
  import opened Bytes
  import opened Scanning
  import opened Grammar
  import Soundness

  /** `complaint` is absent for an unexpected end of input. */
  datatype SyntaxError = SyntaxError(complaint: Option<Complaint>, offset: int)

  /** The second slash of a comment is due. */
  predicate OpensComment(step: Step) {
    || step.MaybeCommentAtBeginValue? || step.MaybeCommentAtBeginString?
    || step.MaybeCommentAtEndValue? || step.MaybeCommentAtEndArrayValue?
  }

  predicate InAComment(step: Step) {
    || step.InCommentAtBeginValue? || step.InCommentAtBeginString?
    || step.InCommentAtEndValue? || step.InCommentAtEndArrayValue?
  }

  /** A rejected comment start takes back the byte before it. */
  function Retracts(step: Step, out: Out): int {
    if out.complaint.Some? && OpensComment(step) then 1 else 0
  }

  /** The error of a transition that ends the run; `count` bytes have been consumed, its own included. */
  function Mistake(q: Conf, out: Out, count: int): SyntaxError {
    SyntaxError(out.complaint, count - Retracts(q.step, out))
  }

  /** The error of a text that ends too early: that of an imaginary space, or an unexpected end. */
  function Unended(q: Conf, count: int): SyntaxError {
    if Trans(q, SPACE).complaint.Some? then Mistake(q, Trans(q, SPACE), count) else SyntaxError(None, count)
  }

  /** One byte more, if the caller of the scanner counts the bytes. */
  function Counted(count: int, counting: bool): int {
    if counting then count + 1 else count
  }

  /** The error of a text: the complaint about its first mistake, or about its end. */
  function Diagnosis(q: Conf, s: bytes, count: int, counting: bool): Option<SyntaxError>
    decreases |s|
  {
    if s == [] then (if EofOk(q) then None else Some(Unended(q, count)))
    else
      var out := Trans(q, s[0]);
      if out.complaint.Some? then Some(Mistake(q, out, Counted(count, counting)))
      else Diagnosis(out.next, s[1..], Counted(count, counting), counting)
  }

  /** The imaginary space that ends a value is no mistake. */
  lemma SpaceEnds(q: Conf)
    requires !q.endTop && Trans(q, SPACE).next.endTop
    ensures Trans(q, SPACE).complaint.None?
  {
  }

  class Scanner {
    var step: Step
    var endTop: bool
    var parseState: seq<ParseState>
    var err: Option<SyntaxError>
    var redo: bool
    var redoCode: Op
    var redoState: Step
    var consumed: int  // the field `bytes`, kept up by the callers

    /** The configuration behind a pending redo, if there is one. */
    ghost function Conf(): Scanning.Conf
      reads this
    {
      Scanning.Conf(if step.Redo? then redoState else step, parseState, endTop)
    }

    ghost predicate Valid()
      reads this
    {
      && (redo <==> step.Redo?)
      && Fits(Conf())
      && (Conf().step.Dead? ==> err.Some?)
    }

    /** No redo is pending. */
    ghost predicate Ready()
      reads this
    {
      !redo && !step.Redo?
    }

    /** No error but the one that stopped the scanner. */
    ghost predicate Tracking()
      reads this
    {
      err.Some? <==> Conf().step.Dead?
    }

    /** The call took the transition `out` and returned `op`. */
    twostate predicate Took(out: Out, op: Op)
      reads this
    {
      && op == out.op && Conf() == out.next && Ready()
      && consumed == old(consumed) - Retracts(old(step), out)
      && err == if out.complaint.Some? then Some(SyntaxError(out.complaint, consumed)) else old(err)
    }

    constructor ()
      ensures Valid() && Ready() && Conf() == INIT && err.None? && consumed == 0
    {
      step, endTop, parseState, err := BeginValue, false, [], None;
      redo, redoCode, redoState, consumed := false, Continue, BeginValue, 0;
    }

    method Reset()
      modifies this
      ensures Valid() && Ready() && Conf() == INIT && err.None? && consumed == old(consumed)
    {
      step := BeginValue;
      parseState := [];
      err := None;
      redo := false;
      endTop := false;
    }

    method PushParseState(p: ParseState)
      modifies this`parseState
      ensures parseState == old(parseState) + [p]
    {
      parseState := parseState + [p];
    }

    method PopParseState()
      requires Ready() && parseState != []
      modifies this`parseState, this`redo, this`step, this`endTop
      ensures Ready() && Conf() == (if |old(parseState)| == 1 then Ended([])
                                    else Scanning.Conf(EndValue, old(parseState)[..|old(parseState)| - 1], old(endTop)))
    {
      var n := |parseState| - 1;
      parseState := parseState[..n];
      redo := false;
      if n == 0 {
        step := EndTop;
        endTop := true;
      } else {
        step := EndValue;
      }
    }

    method Error(c: byte, context: Context) returns (op: Op)
      requires Ready()
      modifies this`step, this`err
      ensures Ready() && op == Failed && step == Dead
      ensures err == Some(SyntaxError(Some(Complaint(c, context)), consumed))
    {
      step := Dead;
      err := Some(SyntaxError(Some(Complaint(c, context)), consumed));
      op := Failed;
    }

    method StateEndTop(c: byte) returns (op: Op)
      requires Ready() && step.EndTop?
      modifies this
      ensures Took(EndTopOut(old(Conf()), c), op)
    {
      if c != SPACE && c != TAB && c != RETURN && c != NEWLINE {
        var _ := Error(c, AfterTop);
      }
      op := End;
    }

    method StateEndValue(c: byte) returns (op: Op)
      requires Ready() && (endTop ==> parseState == [])
      requires !OpensComment(step)
      modifies this
      ensures Took(EndValueOut(old(Conf()), c), op)
    {
      var n := |parseState|;
      if n == 0 {
        step := EndTop;
        endTop := true;
        op := StateEndTop(c);
        return;
      }
      if IsSpace(c) {
        step := EndValue;
        return SkipSpace;
      }
      var ps := parseState[n - 1];
      match ps
      case ObjectKey => op := EndKey(c);
      case ObjectValue => op := EndMember(c);
      case ArrayValue => op := EndElement(c);
    }

    // the three arms of the switch above

    method EndKey(c: byte) returns (op: Op)
      requires Ready() && !OpensComment(step) && Inside(parseState, ObjectKey) && !IsSpace(c)
      modifies this
      ensures Took(EndValueOut(old(Conf()), c), op)
    {
      if c == COLON {
        parseState := parseState[|parseState| - 1 := ObjectValue];
        step := BeginValue;
        return ObjectKeyDone;
      }
      op := Error(c, AfterKey);
    }

    method EndMember(c: byte) returns (op: Op)
      requires Ready() && !OpensComment(step) && Inside(parseState, ObjectValue) && !IsSpace(c) && !endTop
      modifies this
      ensures Took(EndValueOut(old(Conf()), c), op)
    {
      if c == COMMA {
        parseState := parseState[|parseState| - 1 := ObjectKey];
        step := BeginString;
        return ObjectValueDone;
      }
      if c == RBRACE {
        PopParseState();
        return EndObject;
      }
      if c == SLASH {
        step := MaybeCommentAtEndValue;
        return SkipSpace;
      }
      op := Error(c, AfterMember);
    }

    method EndElement(c: byte) returns (op: Op)
      requires Ready() && !OpensComment(step) && Inside(parseState, ArrayValue) && !IsSpace(c) && !endTop
      modifies this
      ensures Took(EndValueOut(old(Conf()), c), op)
    {
      if c == COMMA {
        step := BeginValue;
        return ArrayValueDone;
      }
      if c == RBRACKET {
        PopParseState();
        return EndArray;
      }
      if c == SLASH {
        step := MaybeCommentAtEndArrayValue;
        return SkipSpace;
      }
      op := Error(c, AfterElement);
    }

    method StateBeginValue(c: byte) returns (op: Op)
      requires Ready() && (step.BeginValue? || step.BeginValueOrEmpty?)
      modifies this
      ensures Took(BeginValueOut(old(Conf()), c), op)
    {
      if IsSpace(c) {
        op := SkipSpace;
      } else if c == LBRACE {
        step := BeginStringOrEmpty;
        PushParseState(ObjectKey);
        op := BeginObject;
      } else if c == LBRACKET {
        step := BeginValueOrEmpty;
        PushParseState(ArrayValue);
        op := BeginArray;
      } else if c == SLASH {
        step := MaybeCommentAtBeginValue;
        op := SkipSpace;
      } else {
        var first :=
          if c == QUOTE then Some(InString)
          else if c == MINUS then Some(Neg)
          else if c == ZERO then Some(Int0)
          else if c == LOWER_T then Some(T)
          else if c == LOWER_F then Some(F)
          else if c == LOWER_N then Some(N)
          else if IsDigit(c) then Some(Int1)
          else None;
        match first
        case Some(next) =>
          step := next;
          op := BeginLiteral;
        case None =>
          op := Error(c, LookingForValue);
      }
    }

    method StateBeginValueOrEmpty(c: byte) returns (op: Op)
      requires Ready() && step.BeginValueOrEmpty? && (endTop ==> parseState == [])
      modifies this
      ensures Took(Trans(old(Conf()), c), op)
    {
      if IsSpace(c) {
        return SkipSpace;
      }
      if c == RBRACKET {
        op := StateEndValue(c);
        return;
      }
      op := StateBeginValue(c);
    }

    method StateBeginString(c: byte) returns (op: Op)
      requires Ready() && (step.BeginString? || step.BeginStringOrEmpty?)
      modifies this
      ensures Took(BeginStringOut(old(Conf()), c), op)
    {
      if IsSpace(c) {
        return SkipSpace;
      }
      if c == SLASH {
        step := MaybeCommentAtBeginString;
        return SkipSpace;
      }
      if c == QUOTE {
        step := InString;
        return BeginLiteral;
      }
      op := Error(c, LookingForKey);
    }

    method StateBeginStringOrEmpty(c: byte) returns (op: Op)
      requires Ready() && step.BeginStringOrEmpty? && parseState != [] && !endTop
      modifies this
      ensures Took(Trans(old(Conf()), c), op)
    {
      if IsSpace(c) {
        return SkipSpace;
      }
      if c == RBRACE {
        var n := |parseState|;
        parseState := parseState[n - 1 := ObjectValue];
        op := StateEndValue(c);
        return;
      }
      op := StateBeginString(c);
    }

    /** The four states after the first slash of a comment. */
    method StateMaybeComment(c: byte, inside: Step, context: Context) returns (op: Op)
      requires Ready() && OpensComment(step) && !OpensComment(inside) && !inside.Redo?
      modifies this
      ensures Took(OpenComment(old(Conf()), c, inside, context), op)
    {
      if c == SLASH {
        step := inside;
        return SkipSpace;
      }
      consumed := consumed - 1;
      op := Error(SLASH, context);
    }

    /** The four states inside a comment. */
    method StateInComment(c: byte, after: Step) returns (op: Op)
      requires Ready() && !after.Redo?
      modifies this
      ensures Took(InComment(old(Conf()), c, after), op)
    {
      if c == NEWLINE {
        step := after;
        return SkipSpace;
      }
      op := SkipSpace;
    }

    method StateInString(c: byte) returns (op: Op)
      requires Ready() && step.InString?
      modifies this
      ensures Took(LiteralOut(old(Conf()), c), op)
    {
      if c == QUOTE {
        step := EndValue;
        return Continue;
      }
      if c == BACKSLASH {
        step := InStringEsc;
        return Continue;
      }
      if c < SPACE {
        op := Error(c, InStringLiteral);
        return;
      }
      op := Continue;
    }

    method StateInStringEsc(c: byte) returns (op: Op)
      requires Ready() && step.InStringEsc?
      modifies this
      ensures Took(LiteralOut(old(Conf()), c), op)
    {
      if IsEscapeLetter(c) {
        step := InString;
        return Continue;
      }
      if c == LOWER_U {
        step := InStringEscU;
        return Continue;
      }
      op := Error(c, InEscape);
    }

    /** The four states inside a `\\u` escape. */
    method StateInStringEscU(c: byte, next: Step) returns (op: Op)
      requires Ready() && InLiteral(step) && Lex(step, c) == LexHex(c, next) && !next.Redo?
      modifies this
      ensures Took(LiteralOut(old(Conf()), c), op)
    {
      if IsDigit(c) || LOWER_A <= c <= LOWER_F || UPPER_A <= c <= UPPER_F {
        step := next;
        return Continue;
      }
      op := Error(c, InHexEscape);
    }

    method StateNeg(c: byte) returns (op: Op)
      requires Ready() && step.Neg?
      modifies this
      ensures Took(LiteralOut(old(Conf()), c), op)
    {
      if c == ZERO {
        step := Int0;
        return Continue;
      }
      if IsDigit(c) {
        step := Int1;
        return Continue;
      }
      op := Error(c, InNumber);
    }

    method State1(c: byte) returns (op: Op)
      requires Ready() && step.Int1? && (endTop ==> parseState == [])
      modifies this
      ensures Took(LiteralOut(old(Conf()), c), op)
    {
      if IsDigit(c) {
        step := Int1;
        return Continue;
      }
      op := State0(c);
    }

    method State0(c: byte) returns (op: Op)
      requires Ready() && (step.Int0? || (step.Int1? && !IsDigit(c))) && (endTop ==> parseState == [])
      modifies this
      ensures Took(LiteralOut(old(Conf()), c), op)
    {
      if c == DOT {
        step := Point;
        return Continue;
      }
      if c == LOWER_E || c == UPPER_E {
        step := Exp;
        return Continue;
      }
      op := StateEndValue(c);
    }

    method StateDot(c: byte) returns (op: Op)
      requires Ready() && step.Point?
      modifies this
      ensures Took(LiteralOut(old(Conf()), c), op)
    {
      if IsDigit(c) {
        step := Point0;
        return Continue;
      }
      op := Error(c, AfterPoint);
    }

    method StateDot0(c: byte) returns (op: Op)
      requires Ready() && step.Point0? && (endTop ==> parseState == [])
      modifies this
      ensures Took(LiteralOut(old(Conf()), c), op)
    {
      if IsDigit(c) {
        step := Point0;
        return Continue;
      }
      if c == LOWER_E || c == UPPER_E {
        step := Exp;
        return Continue;
      }
      op := StateEndValue(c);
    }

    method StateE(c: byte) returns (op: Op)
      requires Ready() && step.Exp?
      modifies this
      ensures Took(LiteralOut(old(Conf()), c), op)
    {
      if c == PLUS {
        step := ExpSign;
        return Continue;
      }
      if c == MINUS {
        step := ExpSign;
        return Continue;
      }
      op := StateESign(c);
    }

    method StateESign(c: byte) returns (op: Op)
      requires Ready() && (step.ExpSign? || (step.Exp? && c != PLUS && c != MINUS))
      modifies this
      ensures Took(LiteralOut(old(Conf()), c), op)
    {
      if IsDigit(c) {
        step := Exp0;
        return Continue;
      }
      op := Error(c, InExponent);
    }

    method StateE0(c: byte) returns (op: Op)
      requires Ready() && step.Exp0? && (endTop ==> parseState == [])
      modifies this
      ensures Took(LiteralOut(old(Conf()), c), op)
    {
      if IsDigit(c) {
        step := Exp0;
        return Continue;
      }
      op := StateEndValue(c);
    }

    /** The ten states inside a keyword. */
    method StateWord(c: byte, expected: byte, next: Step, context: Context) returns (op: Op)
      requires Ready() && InLiteral(step) && Lex(step, c) == LexOne(c, expected, next, context) && !next.Redo?
      modifies this
      ensures Took(LiteralOut(old(Conf()), c), op)
    {
      if c == expected {
        step := next;
        return Continue;
      }
      op := Error(c, context);
    }

    method StateError() returns (op: Op)
      requires Ready() && step.Dead?
      ensures op == Failed
    {
      op := Failed;
    }

    method StateRedo() returns (op: Op)
      requires Valid() && redo
      modifies this`redo, this`step
      ensures Valid() && Ready() && op == redoCode && Conf() == old(Conf())
    {
      redo := false;
      step := redoState;
      op := redoCode;
    }

    /** Calls the state function of a literal. */
    method CallLiteral(c: byte) returns (op: Op)
      requires Ready() && InLiteral(step) && (endTop ==> parseState == [])
      modifies this
      ensures Took(LiteralOut(old(Conf()), c), op)
    {
      if step.InString? {
        op := StateInString(c);
      } else if step.InStringEsc? {
        op := StateInStringEsc(c);
      } else if step.InStringEscU? {
        op := StateInStringEscU(c, InStringEscU1);
      } else if step.InStringEscU1? {
        op := StateInStringEscU(c, InStringEscU12);
      } else if step.InStringEscU12? {
        op := StateInStringEscU(c, InStringEscU123);
      } else if step.InStringEscU123? {
        op := StateInStringEscU(c, InString);
      } else if step.Neg? {
        op := StateNeg(c);
      } else if step.Int1? {
        op := State1(c);
      } else if step.Int0? {
        op := State0(c);
      } else if step.Point? {
        op := StateDot(c);
      } else if step.Point0? {
        op := StateDot0(c);
      } else if step.Exp? {
        op := StateE(c);
      } else if step.ExpSign? {
        op := StateESign(c);
      } else if step.Exp0? {
        op := StateE0(c);
      } else {
        op := CallWord(c);
      }
    }

    /** Calls the state function that expects the second slash of a comment. */
    method CallMaybeComment(c: byte) returns (op: Op)
      requires Ready() && OpensComment(step)
      modifies this
      ensures Took(Trans(old(Conf()), c), op)
    {
      if step.MaybeCommentAtBeginValue? {
        op := StateMaybeComment(c, InCommentAtBeginValue, LookingForValue);
      } else if step.MaybeCommentAtBeginString? {
        op := StateMaybeComment(c, InCommentAtBeginString, LookingForKey);
      } else if step.MaybeCommentAtEndValue? {
        op := StateMaybeComment(c, InCommentAtEndValue, AfterMember);
      } else {
        op := StateMaybeComment(c, InCommentAtEndArrayValue, AfterElement);
      }
    }

    /** Calls the state function of a comment. */
    method CallInComment(c: byte) returns (op: Op)
      requires Ready() && InAComment(step)
      modifies this
      ensures Took(Trans(old(Conf()), c), op)
    {
      if step.InCommentAtBeginValue? {
        op := StateInComment(c, BeginValueOrEmpty);
      } else if step.InCommentAtBeginString? {
        op := StateInComment(c, BeginString);
      } else {
        op := StateInComment(c, EndValue);
      }
    }

    /** Calls the state function of a keyword. */
    method CallWord(c: byte) returns (op: Op)
      requires Ready()
      requires step.T? || step.Tr? || step.Tru? || step.F? || step.Fa? || step.Fal? || step.Fals?
               || step.N? || step.Nu? || step.Nul?
      modifies this
      ensures Took(LiteralOut(old(Conf()), c), op)
    {
      if step.T? {
        op := StateWord(c, LOWER_R, Tr, InTrue);
      } else if step.Tr? {
        op := StateWord(c, LOWER_U, Tru, InTrue);
      } else if step.Tru? {
        op := StateWord(c, LOWER_E, EndValue, InTrue);
      } else if step.F? {
        op := StateWord(c, LOWER_A, Fa, InFalse);
      } else if step.Fa? {
        op := StateWord(c, LOWER_L, Fal, InFalse);
      } else if step.Fal? {
        op := StateWord(c, LOWER_S, Fals, InFalse);
      } else if step.Fals? {
        op := StateWord(c, LOWER_E, EndValue, InFalse);
      } else if step.N? {
        op := StateWord(c, LOWER_U, Nu, InNull);
      } else if step.Nu? {
        op := StateWord(c, LOWER_L, Nul, InNull);
      } else {
        op := StateWord(c, LOWER_L, EndValue, InNull);
      }
    }

    /** The call `scan.step(scan, c)`. */
    method Feed(c: byte) returns (op: Op)
      requires Valid()
      modifies this
      ensures Valid() && Ready()
      ensures old(redo) ==> op == old(redoCode) && Conf() == old(Conf())
                            && err == old(err) && consumed == old(consumed)
      ensures !old(redo) ==> Took(Trans(old(Conf()), c), op)
      ensures !old(redo) && op == Failed ==> Conf().step.Dead? && err.Some?
      ensures old(Tracking()) ==> Tracking()
    {
      hide Trans;
      FitsStep(Conf(), c);
      if redo {
        op := StateRedo();
      } else if InLiteral(step) {
        TransInLiteral(Conf(), c);
        op := CallLiteral(c);
      } else if OpensComment(step) {
        op := CallMaybeComment(c);
      } else if InAComment(step) {
        op := CallInComment(c);
      } else {
        op := CallStructural(c);
      }
    }

    /** Calls one of the remaining state functions. */
    method CallStructural(c: byte) returns (op: Op)
      requires Ready() && Fits(Conf()) && !InLiteral(step) && !OpensComment(step) && !InAComment(step)
      modifies this
      ensures Took(Trans(old(Conf()), c), op)
    {
      if step.BeginValueOrEmpty? {
        op := StateBeginValueOrEmpty(c);
      } else if step.BeginValue? {
        op := StateBeginValue(c);
      } else if step.BeginStringOrEmpty? {
        op := StateBeginStringOrEmpty(c);
      } else if step.BeginString? {
        op := StateBeginString(c);
      } else if step.EndValue? {
        op := StateEndValue(c);
      } else if step.EndTop? {
        op := StateEndTop(c);
      } else {
        op := StateError();
      }
    }

    /** Tells the scanner that the input is over. */
    method Eof() returns (op: Op)
      requires Valid() && Ready()
      modifies this
      ensures Valid() && Ready() && op == if old(err).None? && EofOk(old(Conf())) then End else Failed
      ensures op == Failed <==> err.Some?
      ensures old(err).Some? ==> err == old(err)
      ensures old(err).None? && op == Failed ==> err == Some(Unended(old(Conf()), old(consumed)))
    {
      if !endTop && Trans(Conf(), SPACE).next.endTop {
        SpaceEnds(Conf());
      }
      if err.Some? {
        return Failed;
      }
      if endTop {
        return End;
      }
      FitsStep(Conf(), SPACE);
      var _ := Feed(SPACE);
      if endTop {
        return End;
      }
      if err.None? {
        err := Some(SyntaxError(None, consumed));
      }
      op := Failed;
    }

    /** The next call returns `code` again; the source panics when a redo is already pending. */
    method Undo(code: Op)
      requires Valid() && !redo
      modifies this`redoCode, this`redoState, this`step, this`redo
      ensures Valid() && redo && redoCode == code && Conf() == old(Conf())
    {
      redoCode := code;
      redoState := step;
      step := Redo;
      redo := true;
    }
  }

  /** Verifies that `data` is one JSON text. */
  method CheckValid(data: bytes, scan: Scanner) returns (err: Option<SyntaxError>)
    modifies scan
    ensures scan.Valid() && scan.Ready()
    ensures err.None? <==> IsJson(data)
    ensures err == Diagnosis(INIT, data, old(scan.consumed), true)
    ensures err.Some? ==> err == scan.err
  {
    hide Trans, Diagnosis, Unended, Fits, Run;
    scan.Reset();
    ghost var base := scan.consumed;
    CheckStarts(data, scan, true);
    for i := 0 to |data|
      invariant Checked(scan, data, i, base, true)
    {
      scan.consumed := scan.consumed + 1;
      var op := CheckByte(data[i], scan, data, i, base, true);
      if op == Failed {
        DeadPrefix(INIT, data, i + 1);
        Soundness.Language(data);
        return scan.err;
      }
    }
    CheckEnds(data, scan, base, true);
    Soundness.Language(data);
    var op := scan.Eof();
    return if op == Failed then scan.err else None;
  }

  /** The number of bytes counted after `i` of them. */
  function CountAt(base: int, i: nat, counting: bool): int {
    if counting then base + i else base
  }

  /** The first `i` bytes have been read; the diagnosis is known, or depends on the rest. */
  ghost predicate Checked(scan: Scanner, data: bytes, i: nat, base: int, counting: bool)
    requires i <= |data|
    reads scan
  {
    CheckedBut(scan, data, i, base, counting, 0)
  }

  /** The same, when `ahead` bytes more have been counted. */
  ghost predicate CheckedBut(scan: Scanner, data: bytes, i: nat, base: int, counting: bool, ahead: int)
    requires i <= |data|
    reads scan
  {
    && scan.Valid() && scan.Ready() && scan.Tracking()
    && scan.Conf() == Run(INIT, data[..i])
    && if scan.err.Some? then Diagnosis(INIT, data, base, counting) == scan.err
       else scan.consumed == CountAt(base, i, counting) + ahead
            && Diagnosis(INIT, data, base, counting)
               == Diagnosis(Run(INIT, data[..i]), data[i..], CountAt(base, i, counting), counting)
  }

  /** One step of a loop over the text; if bytes are counted, this one has been. */
  method CheckByte(c: byte, scan: Scanner, ghost data: bytes, ghost i: nat, ghost base: int, ghost counting: bool)
    returns (op: Op)
    requires i < |data| && c == data[i] && CheckedBut(scan, data, i, base, counting, if counting then 1 else 0)
    modifies scan
    ensures Checked(scan, data, i + 1, base, counting)
    ensures scan.Valid() && scan.Ready() && scan.Tracking() && scan.Conf() == Run(INIT, data[..i + 1])
    ensures op == Trans(Run(INIT, data[..i]), c).op && (old(scan.err).Some? ==> scan.err.Some?)
    ensures op == Failed ==> Run(INIT, data[..i + 1]).step.Dead?
                             && Diagnosis(INIT, data, base, counting) == scan.err != None
  {
    hide Trans, Diagnosis, Fits, Run;
    RunAt(INIT, data, i);
    CheckStep(Run(INIT, data[..i]), data[i..], CountAt(base, i, counting), counting);
    assert data[i..][1..] == data[i + 1..];
    op := scan.Feed(c);
  }

  lemma CheckStarts(data: bytes, scan: Scanner, counting: bool)
    requires scan.Valid() && scan.Ready() && scan.Conf() == INIT && scan.err.None?
    ensures Checked(scan, data, 0, scan.consumed, counting)
  {
    hide Diagnosis, Trans;
    assert data[..0] == [] && data[0..] == data;
  }

  lemma CheckStep(q: Conf, s: bytes, count: int, counting: bool)
    requires s != []
    ensures var out := Trans(q, s[0]);
      Diagnosis(q, s, count, counting)
      == if out.complaint.Some? then Some(Mistake(q, out, Counted(count, counting)))
         else Diagnosis(out.next, s[1..], Counted(count, counting), counting)
    ensures q.step.Dead? ==> Trans(q, s[0]).complaint.None?
  {
    Speechless(q, s[0]);
    hide Trans;
  }

  /** A dead scanner has already said what is wrong. */
  lemma Speechless(q: Conf, c: byte)
    ensures q.step.Dead? ==> Trans(q, c).complaint.None?
  {
  }

  lemma CheckEnds(data: bytes, scan: Scanner, base: int, counting: bool)
    requires Checked(scan, data, |data|, base, counting)
    ensures scan.Valid() && scan.Ready() && scan.Conf() == Run(INIT, data)
    ensures scan.err.Some? ==> scan.Conf().step.Dead?
    ensures Diagnosis(INIT, data, base, counting) ==
      if scan.err.Some? then scan.err
      else if EofOk(scan.Conf()) then None else Some(Unended(scan.Conf(), scan.consumed))
  {
    hide Trans, Run;
    assert data[..|data|] == data && data[|data|..] == [];
  }

  /** Splits `data` after the next whole value. */
  method NextValue(data: bytes, scan: Scanner) returns (value: bytes, rest: bytes, err: Option<SyntaxError>)
    modifies scan
    ensures scan.Valid() && scan.Ready()
    ensures err.None? <==> Cut(INIT, data).Some?
    ensures err.None? ==> value == data[..Cut(INIT, data).value] && rest == data[Cut(INIT, data).value..]
    ensures err.Some? ==> err == scan.err == Diagnosis(INIT, data, old(scan.consumed), false) && value == rest == []
  {
    hide Trans, Diagnosis, Unended, Fits, Run, Cut, CutAfter;
    scan.Reset();
    ghost var base := scan.consumed;
    CheckStarts(data, scan, false);
    CutStarts(data);
    for i := 0 to |data|
      invariant scan.Valid() && scan.Ready() && Checked(scan, data, i, base, false)
      invariant Cut(INIT, data) == CutAfter(i, Cut(Run(INIT, data[..i]), data[i..]))
    {
      CutNext(data, i);
      var op := CheckByte(data[i], scan, data, i, base, false);
      if op == Failed {
        return [], [], scan.err;
      } else if op == End {
        return data[..i], data[i..], None;
      }
    }
    CheckEnds(data, scan, base, false);
    CutEnds(data);
    var op := scan.Eof();
    if op == Failed {
      return [], [], scan.err;
    }
    return data, [], None;
  }

  lemma CutStarts(data: bytes)
    ensures Cut(INIT, data) == CutAfter(0, Cut(Run(INIT, data[..0]), data[0..]))
  {
    hide Trans, Cut;
    assert data[..0] == [] && data[0..] == data;
  }

  /** One byte more without a cut. */
  lemma CutNext(data: bytes, i: nat)
    requires i < |data| && Cut(INIT, data) == CutAfter(i, Cut(Run(INIT, data[..i]), data[i..]))
    ensures var out := Trans(Run(INIT, data[..i]), data[i]);
      && (out.op.End? ==> Cut(INIT, data) == Some(i))
      && (out.op.Failed? ==> Cut(INIT, data) == None)
      && (!out.op.End? && !out.op.Failed? ==>
            Cut(INIT, data) == CutAfter(i + 1, Cut(Run(INIT, data[..i + 1]), data[i + 1..])))
  {
    hide Trans, Run, Trace, Cut, CutAfter, Fits;
    RunAt(INIT, data, i);
    var q, rest := Run(INIT, data[..i]), data[i..];
    assert rest != [] && rest[0] == data[i] && rest[1..] == data[i + 1..];
    CutStep(q, rest);
    CutAfterStep(i, Cut(Trans(q, data[i]).next, data[i + 1..]));
  }

  lemma CutEnds(data: bytes)
    requires Cut(INIT, data) == CutAfter(|data|, Cut(Run(INIT, data[..|data|]), data[|data|..]))
    ensures Cut(INIT, data) == if EofOk(Run(INIT, data)) then Some(|data|) else None
  {
    hide Trans, Run;
    assert data[..|data|] == data && data[|data|..] == [];
  }
}
