/** Where the error of a rejected text points. */
module Diagnoses {
  import opened Bytes
  import opened Scanning
  import opened ScannerState
  import opened Grammar
  import opened Soundness
  import opened Viability

  /** The scanner waits for the second slash of a comment. */
  predicate HalfOpen(s: bytes) {
    OpensComment(Run(INIT, s).step)
  }

  /** The position of the first byte that goes wrong, or the length of the input. */
  function FirstBad(q: Conf, s: bytes): (n: nat)
    ensures n <= |s|
    decreases |s|
  {
    if s == [] || Trans(q, s[0]).complaint.Some? then 0 else 1 + FirstBad(Trans(q, s[0]).next, s[1..])
  }

  /** What has been counted when the first mistake, or the end, is met. */
  function CountTo(s: bytes, n: nat, count: int, counting: bool): int {
    if !counting then count else if n < |s| then count + n + 1 else count + n
  }

  lemma {:induction false} Locate(q: Conf, s: bytes, count: int, counting: bool)
    requires Fits(q) && !q.step.Dead? && Diagnosis(q, s, count, counting).Some?
    ensures var n := FirstBad(q, s);
      !Run(q, s[..n]).step.Dead? && (n < |s| ==> Run(q, s[..n + 1]).step.Dead?)
    ensures var n := FirstBad(q, s);
      var p := Run(q, s[..n]);
      Diagnosis(q, s, count, counting).value
      == if n < |s| then Mistake(p, Trans(p, s[n]), CountTo(s, n, count, counting))
         else Unended(p, CountTo(s, n, count, counting))
    decreases |s|
  {
    hide Trans, Unended, Mistake, Fits;
    if s == [] {
      assert s[..0] == [];
    } else {
      var out := Trans(q, s[0]);
      FitsStep(q, s[0]);
      CheckStep(q, s, count, counting);
      assert s[..0] == [] && s[..1] == [s[0]] && [s[0]][1..] == [];
      if out.complaint.Some? {
        assert Run(q, [s[0]]) == Run(out.next, []);
      } else {
        Locate(out.next, s[1..], Counted(count, counting), counting);
        var m := FirstBad(out.next, s[1..]);
        var n := m + 1;
        assert FirstBad(q, s) == n;
        assert s[..n][1..] == s[1..][..m] && (n < |s| ==> s[..n + 1][1..] == s[1..][..m + 1]);
      }
    }
  }

  lemma SlashOpens(q: Conf, c: byte)
    requires OpensComment(Trans(q, c).next.step)
    ensures c == SLASH
  {
    hide Trans;
    if InLiteral(q.step) {
      hide Lex, OpensComment, EndValueOut;
      TransInLiteral(q, c);
      LexNoComment(q.step, c);
      EndOpens(q, c);
    } else {
      SlashElsewhere(q, c);
    }
  }

  lemma EndOpens(q: Conf, c: byte)
    ensures OpensComment(EndValueOut(q, c).next.step) ==> c == SLASH
    ensures forall context :: !OpensComment(Reject(q, c, context).next.step)
  {
  }

  lemma SlashElsewhere(q: Conf, c: byte)
    requires !InLiteral(q.step) && OpensComment(Trans(q, c).next.step)
    ensures c == SLASH
  {
  }

  lemma LexNoComment(step: Step, c: byte)
    requires InLiteral(step)
    ensures var l := Lex(step, c); l.Goto? ==> !OpensComment(l.step)
  {
  }

  /** A half-open comment ends in its slash. */
  lemma HalfOpenSlash(s: bytes)
    requires HalfOpen(s)
    ensures s != [] && s[|s| - 1] == SLASH
  {
    if s != [] {
      hide Trans;
      RunAt(INIT, s, |s| - 1);
      assert s[..|s|] == s;
      SlashOpens(Run(INIT, s[..|s| - 1]), s[|s| - 1]);
    }
  }

  lemma Offsets(p: Conf, c: byte, count: int)
    requires Fits(p) && !p.step.Dead?
    ensures var r := if OpensComment(p.step) then 1 else 0;
      && Unended(p, count).offset == count - r
      && (Trans(p, c).complaint.Some? ==> Mistake(p, Trans(p, c), count).offset == count - r)
  {
    if OpensComment(p.step) {
      SpaceOpensNothing(p);
    }
    hide Trans;
  }

  lemma SpaceOpensNothing(p: Conf)
    requires OpensComment(p.step)
    ensures Trans(p, SPACE).complaint.Some?
  {
  }

  /** `n` bytes have a continuation, but not one more, and that is where the error points if bytes are counted. */
  ghost predicate PointsAt(s: bytes, n: nat, e: SyntaxError, count: int, counting: bool)
    requires n <= |s|
  {
    && Viable(s[..n]) && (n < |s| ==> !Viable(s[..n + 1]))
    && (HalfOpen(s[..n]) ==> n > 0 && s[n - 1] == SLASH)
    && e.offset == CountTo(s, n, count, counting) - if HalfOpen(s[..n]) then 1 else 0
  }

  /**
     A text is diagnosed exactly when it is rejected. The error then points behind the first byte after which no
     continuation is a text, or at the end when every prefix has one; a slash that opens no comment takes the
     error back by one, to itself. A caller that does not count the bytes leaves the error at the start.
   */
  lemma DiagnosisExact(s: bytes, count: int, counting: bool)
    ensures Diagnosis(INIT, s, count, counting).None? <==> IsJson(s)
    ensures !IsJson(s) ==> PointsAt(s, FirstBad(INIT, s), Diagnosis(INIT, s, count, counting).value, count, counting)
  {
    assert Fits(INIT);
    hide Trans, Diagnosis, Fits, Unended, Mistake, Run, FirstBad, CountTo;
    DiagnosisNone(INIT, s, count, counting);
    Language(s);
    if !IsJson(s) {
      var n := FirstBad(INIT, s);
      var c := CountTo(s, n, count, counting);
      Locate(INIT, s, count, counting);
      Prefixes(s, n);
      hide Viable;
      if n < |s| {
        RunAt(INIT, s, n);
        Complains(Run(INIT, s[..n]), s[n]);
        Offsets(Run(INIT, s[..n]), s[n], c);
      } else {
        Offsets(Run(INIT, s[..n]), SPACE, c);
      }
    }
  }

  lemma Prefixes(s: bytes, n: nat)
    requires n <= |s| && !Run(INIT, s[..n]).step.Dead? && (n < |s| ==> Run(INIT, s[..n + 1]).step.Dead?)
    ensures Viable(s[..n]) && (n < |s| ==> !Viable(s[..n + 1])) && Fits(Run(INIT, s[..n]))
    ensures HalfOpen(s[..n]) ==> n > 0 && s[n - 1] == SLASH
  {
    assert Fits(INIT);
    hide Trans, Run, Viable, Fits;
    ViablePrefix(s[..n]);
    RunFits(INIT, s[..n]);
    if n < |s| {
      ViablePrefix(s[..n + 1]);
    }
    if HalfOpen(s[..n]) {
      HalfOpenSlash(s[..n]);
    }
  }

  /** A caller that does not count the bytes reports the right place only for the empty text. */
  lemma CountingMatters(s: bytes, count: int)
    ensures Diagnosis(INIT, s, count, false) == Diagnosis(INIT, s, count, true) <==> IsJson(s) || s == []
    ensures var e := Diagnosis(INIT, s, count, false); e.Some? ==> count - 1 <= e.value.offset <= count
  {
    hide Trans, Fits, Run, FirstBad, Viable, HalfOpen;
    DiagnosisExact(s, count, false);
    DiagnosisExact(s, count, true);
    if s != [] {
      hide Diagnosis;
    }
  }

  lemma Complains(p: Conf, c: byte)
    requires Fits(p) && !p.step.Dead? && Trans(p, c).next.step.Dead?
    ensures Trans(p, c).complaint.Some?
  {
    hide Trans;
    FitsStep(p, c);
  }

  lemma {:induction false} DiagnosisNone(q: Conf, s: bytes, count: int, counting: bool)
    requires Fits(q) && !q.step.Dead?
    ensures Diagnosis(q, s, count, counting).None? <==> Accepts(q, s)
    decreases |s|
  {
    hide Trans, Fits;
    if s != [] {
      FitsStep(q, s[0]);
      CheckStep(q, s, count, counting);
      var next := Trans(q, s[0]).next;
      if next.step.Dead? {
        DeadForever(next, s[1..]);
      } else {
        DiagnosisNone(next, s[1..], Counted(count, counting), counting);
      }
    }
  }

  // ---------- what the error says ----------

  /** A complaint names the byte it is about, or the slash before it that was to open a comment. */
  lemma ComplaintByte(p: Conf, c: byte)
    ensures var out := Trans(p, c);
      out.complaint.Some? ==> out.complaint.value.c == if OpensComment(p.step) then SLASH else c
  {
    if InLiteral(p.step) {
      hide Lex;
      TransInLiteral(p, c);
    }
  }

  /** What it says to have been after is what the scanner is in. */
  lemma ComplaintContext(p: Conf, c: byte)
    requires Fits(p) && Trans(p, c).complaint.Some?
    ensures var context := Trans(p, c).complaint.value.context;
      && (context.AfterKey? ==> Inside(p.stack, ObjectKey)) && (context.AfterMember? ==> Inside(p.stack, ObjectValue))
      && (context.AfterElement? ==> Inside(p.stack, ArrayValue)) && (context.AfterTop? ==> p.stack == [])
  {
    if InLiteral(p.step) {
      TransInLiteral(p, c);
      ContextInLiteral(p, c);
    }
  }

  lemma ContextInLiteral(p: Conf, c: byte)
    requires Fits(p) && InLiteral(p.step) && LiteralOut(p, c).complaint.Some?
    ensures var context := LiteralOut(p, c).complaint.value.context;
      && (context.AfterKey? ==> Inside(p.stack, ObjectKey)) && (context.AfterMember? ==> Inside(p.stack, ObjectValue))
      && (context.AfterElement? ==> Inside(p.stack, ArrayValue)) && (context.AfterTop? ==> p.stack == [])
  {
  }

  /**
     The error of a rejected text names its first byte without a continuation, or the slash that opens no comment; at
     the end of the text it names the imaginary space, if that is a mistake, or nothing.
   */
  lemma DiagnosisNames(s: bytes, count: int, counting: bool)
    requires !IsJson(s)
    ensures Diagnosis(INIT, s, count, counting).Some?
    ensures var n := FirstBad(INIT, s);
      var complaint := Diagnosis(INIT, s, count, counting).value.complaint;
      && (n < |s| ==> complaint.Some?)
      && (complaint.Some? ==> complaint.value.c == if HalfOpen(s[..n]) then SLASH else if n < |s| then s[n] else SPACE)
      && (n == |s| && complaint.None? ==> !Run(INIT, s + [SPACE]).step.Dead?)
  {
    var n := FirstBad(INIT, s);
    var p := Run(INIT, s[..n]);
    StartFits();
    HalfOpenIs(s[..n]);
    hide Trans, Diagnosis, Fits, Run, FirstBad, CountTo, Accepts, IsJson, HalfOpen, OpensComment, Mistake, Unended;
    DiagnosisNone(INIT, s, count, counting);
    Language(s);
    Locate(INIT, s, count, counting);
    RunFits(INIT, s[..n]);
    MistakeNames(p, if n < |s| then s[n] else SPACE, CountTo(s, n, count, counting));
    if n < |s| {
      RunAt(INIT, s, n);
    } else {
      assert s[..n] == s;
      AndSpace(s);
    }
  }

  lemma HalfOpenIs(s: bytes)
    ensures HalfOpen(s) == OpensComment(Run(INIT, s).step)
  {
  }

  lemma MistakeNames(p: Conf, c: byte, count: int)
    requires Fits(p) && !p.step.Dead?
    ensures var byte := if OpensComment(p.step) then SLASH else c;
      && (Trans(p, c).next.step.Dead? ==>
            var complaint := Mistake(p, Trans(p, c), count).complaint; complaint.Some? && complaint.value.c == byte)
      && (c == SPACE ==>
            var complaint := Unended(p, count).complaint;
            if complaint.Some? then complaint.value.c == byte else !Trans(p, SPACE).next.step.Dead?)
  {
    ComplaintByte(p, c);
    hide Trans;
    FitsStep(p, c);
  }

  lemma AndSpace(s: bytes)
    ensures Run(INIT, s + [SPACE]) == Trans(Run(INIT, s), SPACE).next
  {
    hide Trans;
    RunAt(INIT, s + [SPACE], |s|);
    assert (s + [SPACE])[..|s|] == s && (s + [SPACE])[..|s| + 1] == s + [SPACE];
  }
}
