/** What the scanner cuts off the front of a stream of texts. */
module Cuts {
  import opened Bytes
  import opened Scanning
  import opened Grammar
  import opened Recognition
  import opened Soundness
  import opened Viability

  // ---------- where a cut falls ----------

  /** The text before a cut is read without an end or an error, and is over there. */
  predicate EndsHere(q: Conf, s: bytes, n: nat)
    requires n <= |s|
  {
    if n == |s| then EofOk(Run(q, s)) else Trans(Run(q, s[..n]), s[n]).op.End?
  }

  lemma {:induction false} CutEnds(q: Conf, s: bytes, n: nat)
    requires Cut(q, s) == Some(n)
    ensures EndsHere(q, s, n)
    decreases s
  {
    hide Trans;
    if s != [] {
      var out := Trans(q, s[0]);
      if n > 0 {
        CutEnds(out.next, s[1..], n - 1);
        if n < |s| {
          assert s[..n] == [s[0]] + s[1..][..n - 1];
          assert s[..n][1..] == s[1..][..n - 1];
        }
      } else {
        assert s[..0] == [];
      }
    }
  }

  /** After an end or an error there is nothing but ends and errors. */
  predicate Over(q: Conf) {
    q.step.Dead? || (q.step.EndTop? && q.stack == [])
  }

  lemma OverStep(q: Conf, c: byte)
    requires Over(q)
    ensures Over(Trans(q, c).next) && (Trans(q, c).op.End? || Trans(q, c).op.Failed?)
  {
  }

  lemma EndIsOver(q: Conf, c: byte)
    requires Fits(q) && (Trans(q, c).op.End? || Trans(q, c).op.Failed?)
    ensures Over(Trans(q, c).next)
  {
    FitsStep(q, c);
  }

  lemma {:induction false} OverForever(q: Conf, s: bytes, i: nat)
    requires Over(q) && i < |s|
    ensures Trace(q, s)[i].op.End? || Trace(q, s)[i].op.Failed?
    decreases s
  {
    hide Trans;
    OverStep(q, s[0]);
    if i > 0 {
      OverForever(Trans(q, s[0]).next, s[1..], i - 1);
    }
  }

  /** A place where the text can be over, right after a byte that still belonged to it, is the cut. */
  lemma {:induction false} CutThere(q: Conf, s: bytes, n: nat)
    requires Fits(q) && n <= |s| && EndsHere(q, s, n)
    requires n > 0 ==> !Trace(q, s)[n - 1].op.End? && !Trace(q, s)[n - 1].op.Failed?
    ensures Cut(q, s) == Some(n)
    decreases s
  {
    hide Trans, Fits;
    if n == 0 {
      assert s[..0] == [];
    } else {
      var out := Trans(q, s[0]);
      FitsStep(q, s[0]);
      if out.op.End? || out.op.Failed? {
        EndIsOver(q, s[0]);
        if n > 1 {
          OverForever(out.next, s[1..], n - 2);
        }
      } else {
        assert n < |s| ==> s[..n][1..] == s[1..][..n - 1];
        CutThere(out.next, s[1..], n - 1);
      }
    }
  }

  // ---------- what is cut ----------

  /** No value has been started. */
  predicate Waiting(q: Conf) {
    && q.stack == [] && !q.endTop
    && (q.step.BeginValue? || q.step.BeginValueOrEmpty?
        || q.step.MaybeCommentAtBeginValue? || q.step.InCommentAtBeginValue?)
  }

  lemma StartedStep(q: Conf, c: byte)
    requires Fits(q) && !Waiting(q)
    ensures !Waiting(Trans(q, c).next)
  {
    if InLiteral(q.step) {
      hide Lex, Trans;
      TransInLiteral(q, c);
      LexStays(q.step, c);
    }
  }

  lemma LexStays(step: Step, c: byte)
    requires InLiteral(step)
    ensures var l := Lex(step, c); l.Goto? ==> InLiteral(l.step) || l.step.EndValue?
  {
  }

  lemma {:induction false} StartedForever(q: Conf, s: bytes)
    requires Fits(q) && !Waiting(q)
    ensures !Waiting(Run(q, s))
    decreases s
  {
    hide Trans, Fits;
    if s != [] {
      FitsStep(q, s[0]);
      StartedStep(q, s[0]);
      StartedForever(Trans(q, s[0]).next, s[1..]);
    }
  }

  /** What the scanner can have read while it waits. */
  predicate Waited(q: Conf, g: bytes) {
    match q.step
    case MaybeCommentAtBeginValue => g != [] && g[0] == SLASH && IsComment(g[1..])
    case InCommentAtBeginValue => IsComment(g)
    case _ => IsGap(g)
  }

  lemma WaitingStep(q: Conf, c: byte)
    requires Waiting(q) && Waiting(Trans(q, c).next)
    ensures var p := Trans(q, c).next.step;
      match q.step
      case MaybeCommentAtBeginValue => c == SLASH && p.InCommentAtBeginValue?
      case InCommentAtBeginValue => if c == NEWLINE then p.BeginValueOrEmpty? else p.InCommentAtBeginValue?
      case _ => if c == SLASH then p.MaybeCommentAtBeginValue? else IsSpace(c) && p == q.step
  {
  }

  lemma {:induction false} GapRead(q: Conf, g: bytes)
    requires Fits(q) && Waiting(q)
    requires Waiting(Run(q, g)) && (Run(q, g).step.BeginValue? || Run(q, g).step.BeginValueOrEmpty?)
    ensures Waited(q, g)
    decreases g
  {
    hide Trans, Fits;
    if g != [] {
      FitsStep(q, g[0]);
      if !Waiting(Trans(q, g[0]).next) {
        StartedForever(Trans(q, g[0]).next, g[1..]);
      }
      WaitingStep(q, g[0]);
      GapRead(Trans(q, g[0]).next, g[1..]);
      assert |g| >= 2 ==> g[1..][1..] == g[2..];
    }
  }

  /** Where a text can be over, the scanner is in an accepting place, or it waits before a `]`. */
  lemma EndPlaces(q: Conf, c: byte)
    requires Fits(q) && Trans(q, c).op.End?
    ensures EofOk(q) || (Waiting(q) && q.step.BeginValueOrEmpty? && c == RBRACKET)
  {
    hide Trans;
    if InLiteral(q.step) {
      TransInLiteral(q, c);
      TransInLiteral(q, SPACE);
      EndAfterLiteral(q, c);
    } else {
      EndElsewhere(q, c);
    }
  }

  lemma EndAfterLiteral(q: Conf, c: byte)
    requires InLiteral(q.step) && LiteralOut(q, c).op.End?
    ensures LiteralOut(q, SPACE).next.endTop
  {
    hide Lex;
    LeaveAnywhere(q.step, c);
  }

  lemma EndElsewhere(q: Conf, c: byte)
    requires Fits(q) && !InLiteral(q.step) && Trans(q, c).op.End?
    ensures EofOk(q) || (Waiting(q) && q.step.BeginValueOrEmpty? && c == RBRACKET)
  {
  }

  lemma LeaveAnywhere(step: Step, c: byte)
    requires InLiteral(step) && Lex(step, c).Leave?
    ensures Lex(step, SPACE).Leave?
  {
  }

  /** A comment that a closing bracket follows where there is nothing to close. */
  predicate Stray(g: bytes, r: bytes) {
    IsGap(g) && !IsSpaces(g) && r != [] && r[0] == RBRACKET
  }

  /** A cut takes at least a byte: a whole text, or comments before a stray bracket. */
  lemma CutText(s: bytes, n: nat)
    requires Cut(INIT, s) == Some(n)
    ensures 0 < n <= |s|
    ensures IsJson(s[..n]) || Stray(s[..n], s[n..])
  {
    hide Trans, Fits, Run, IsGap, IsSpaces, Cut;
    CutEnds(INIT, s, n);
    CutSome(s);
    StartFits();
    RunFits(INIT, s[..n]);
    if n == |s| {
      assert s[..n] == s;
      Language(s);
    } else {
      EndPlaces(Run(INIT, s[..n]), s[n]);
      if EofOk(Run(INIT, s[..n])) {
        Language(s[..n]);
      } else {
        StrayRead(s[..n]);
      }
    }
  }

  lemma StrayRead(g: bytes)
    requires Waiting(Run(INIT, g)) && Run(INIT, g).step.BeginValueOrEmpty?
    ensures IsGap(g) && !IsSpaces(g)
  {
    hide Trans, Fits;
    StartFits();
    GapRead(INIT, g);
    GapReads(INIT, g);
  }

  lemma CutSome(s: bytes)
    ensures Cut(INIT, s) != Some(0)
  {
  }

  /** A stray bracket does cut the comments before it. */
  lemma StrayCut(g: bytes, r: bytes)
    requires Stray(g, r)
    ensures Cut(INIT, g + r) == Some(|g|)
  {
    hide Trans, IsGap;
    var s := g + r;
    GapReads(INIT, g);
    RunSplit(INIT, g, r);
    var p := GapEnd(INIT, g);
    assert Trans(p, RBRACKET).op.End? by { Bracket(); }
    assert s[..|g|] == g && s[|g|] == r[0];
    StartFits();
    assert g != [] by { assert IsSpaces([]); }
    MarkOp(g, SkipSpace, |g| - 1);
    CutThere(INIT, s, |g|);
  }

  lemma Bracket()
    ensures Trans(Conf(BeginValueOrEmpty, [], false), RBRACKET).op.End?
  {
  }

  lemma {:induction false} MarkOp(s: bytes, op: Op, i: nat)
    requires i < |s|
    ensures |Mark(s, op)| == |s| && Mark(s, op)[i].op == op
    decreases s
  {
    if i > 0 {
      MarkOp(s[1..], op, i - 1);
    } else {
      MarkSize(s, op);
    }
  }

  lemma {:induction false} MarkSize(s: bytes, op: Op)
    ensures |Mark(s, op)| == |s|
    decreases s
  {
    if s != [] {
      MarkSize(s[1..], op);
    }
  }

  // ---------- texts one after another ----------

  lemma LastOp(v: Value)
    requires WfValue(v)
    ensures var es := EventsValue(v);
      es != [] && !es[|es| - 1].op.End? && !es[|es| - 1].op.Failed?
  {
    if v.Literal? {
      LiteralLexes(v.text);
      if |v.text| > 1 {
        MarkOp(v.text[1..], Continue, |v.text| - 2);
      }
    }
  }

  predicate InNumberEnd(step: Step) {
    step.Int1? || step.Int0? || step.Point0? || step.Exp0?
  }

  lemma NumberEndsInDigit(q: Conf, c: byte)
    requires InNumberEnd(Trans(q, c).next.step)
    ensures IsDigit(c)
  {
    hide Trans;
    if InLiteral(q.step) {
      TransInLiteral(q, c);
      LexEndsInDigit(q.step, c);
    } else {
      StartsInDigit(q, c);
    }
  }

  lemma LexEndsInDigit(step: Step, c: byte)
    requires InLiteral(step)
    ensures var l := Lex(step, c); l.Goto? && InNumberEnd(l.step) ==> IsDigit(c)
  {
  }

  lemma StartsInDigit(q: Conf, c: byte)
    requires !InLiteral(q.step) && InNumberEnd(Trans(q, c).next.step)
    ensures IsDigit(c)
  {
  }

  /** The text ends in a number, and `c` belongs to it. */
  predicate GoesOn(y: bytes, c: byte) {
    var step := Run(INIT, y).step;
    InNumberEnd(step) && Lex(step, c).Goto?
  }

  /** Once its last byte is read, a text is over unless a number goes on. */
  lemma OverAfter(p: Conf, r: byte)
    requires Settle(p) == Ended([])
    ensures Trans(p, r).op.End? <==> !(InNumberEnd(p.step) && Lex(p.step, r).Goto?)
    ensures Trans(p, r).next.step.Dead? <==> Trans(p, r).op.End? && !IsSpace(r)
  {
    EndOver(p, r);
    if InNumberEnd(p.step) {
      hide Trans;
      TransInLiteral(p, r);
      EndOver(Ended([]), r);
    }
  }

  lemma EndOver(p: Conf, r: byte)
    requires Settle(p) == Ended([])
    ensures var out := Trans(p, r); !InNumberEnd(p.step) ==> out.op.End? && (out.next.step.Dead? <==> !IsSpace(r))
  {
  }

  /** A space ends no text. */
  lemma LastNoSpace(q: Conf, c: byte)
    requires Fits(q) && Settle(Trans(q, c).next) == Ended([]) && !Trans(q, c).op.End?
    ensures !IsSpace(c)
  {
    if InLiteral(q.step) {
      hide Trans, Fits;
      TransInLiteral(q, c);
      LastOfLiteral(q, c);
    } else {
      LastElsewhere(q, c);
    }
  }

  lemma LastOfLiteral(q: Conf, c: byte)
    requires InLiteral(q.step) && Settle(LiteralOut(q, c).next) == Ended([]) && !LiteralOut(q, c).op.End?
    ensures !IsSpace(c)
  {
  }

  lemma LastElsewhere(q: Conf, c: byte)
    requires Fits(q) && !InLiteral(q.step)
    requires Settle(Trans(q, c).next) == Ended([]) && !Trans(q, c).op.End?
    ensures !IsSpace(c)
  {
  }

  /** The scanner stands after the value, and has seen its last byte. */
  lemma DocumentEnd(d: Document)
    requires WfDocument(d) && d.after == []
    ensures Settle(Run(INIT, Yield(d))) == Ended([])
    ensures Yield(d) != [] && var op := Trace(INIT, Yield(d))[|Yield(d)| - 1].op; !op.End? && !op.Failed?
  {
    TreeReads(d);
    hide Trans, Run, Trace, Settle, WfValue, WfDocument, Yield, EventsValue;
    LastOp(d.value);
  }

  lemma TreeReads(d: Document)
    requires WfDocument(d) && d.after == []
    ensures WfValue(d.value) && Reads(INIT, Yield(d), Mark(d.before, SkipSpace) + EventsValue(d.value), Ended([]))
  {
    hide Trans, WfValue, IsGap, EventsValue, YieldValue;
    GapReads(INIT, d.before);
    var q := GapEnd(INIT, d.before);
    ValueReads(q, d.value);
    ReadThen(INIT, d.before, Mark(d.before, SkipSpace), q, YieldValue(d.value), EventsValue(d.value), Ended([]));
    Unit(d.before + YieldValue(d.value));
  }

  /** A text is cut off whole exactly when no number at its end goes on. */
  lemma CutDocument(d: Document, r: bytes)
    requires WfDocument(d) && d.after == []
    ensures Cut(INIT, Yield(d) + r) == Some(|Yield(d)|) <==> r == [] || !GoesOn(Yield(d), r[0])
  {
    hide Trans, Run, Trace, Cut, Fits, Yield, WfDocument, GoesOn;
    DocumentEnd(d);
    var y := Yield(d);
    var n := |y|;
    RunSplit(INIT, y, r);
    RunAt(INIT, y, n - 1);
    assert (y + r)[..n] == y;
    StartFits();
    if r == [] {
      Unit(y);
      SettledEof(Run(INIT, y));
      CutThere(INIT, y + r, n);
    } else {
      OverAfter(Run(INIT, y), r[0]);
      GoesOnStep(y, r[0]);
      assert (y + r)[n] == r[0];
      if !GoesOn(y, r[0]) {
        CutThere(INIT, y + r, n);
      } else if Cut(INIT, y + r) == Some(n) {
        CutEnds(INIT, y + r, n);
      }
    }
  }

  lemma GoesOnStep(y: bytes, c: byte)
    ensures var step := Run(INIT, y).step; GoesOn(y, c) <==> InNumberEnd(step) && Lex(step, c).Goto?
  {
  }

  /** Only a digit that meets another, a point or an exponent can go on. */
  lemma GoesOnBytes(d: Document, c: byte)
    requires WfDocument(d) && d.after == [] && GoesOn(Yield(d), c)
    ensures IsDigit(Yield(d)[|Yield(d)| - 1]) && NumberChar(c)
  {
    hide Trans, Run, Trace, Yield, WfDocument;
    DocumentEnd(d);
    var y := Yield(d);
    RunAt(INIT, y, |y| - 1);
    assert y[..|y|] == y;
    NumberEndsInDigit(Run(INIT, y[..|y| - 1]), y[|y| - 1]);
  }

  // ---------- texts, whatever they look like ----------

  /** A text without the white space behind its value. */
  lemma TrimText(y: bytes) returns (d: Document, after: bytes)
    requires IsJson(y)
    ensures WfDocument(d) && d.after == [] && IsSpaces(after) && y == Yield(d) + after
    ensures Yield(d) != [] && (after == [] <==> !IsSpace(y[|y| - 1]))
  {
    hide Trans, WfValue, IsGap, Run, Trace, Fits;
    var full: Document :| WfDocument(full) && Yield(full) == y;
    d, after := full.(after := []), full.after;
    DocumentEnd(d);
    var z := Yield(d);
    RunAt(INIT, z, |z| - 1);
    assert z[..|z|] == z;
    StartFits();
    RunFits(INIT, z[..|z| - 1]);
    LastNoSpace(Run(INIT, z[..|z| - 1]), z[|z| - 1]);
    if after != [] {
      assert y[|y| - 1] == after[|after| - 1];
      LastOfSpaces(after);
    }
  }

  lemma {:induction false} LastOfSpaces(s: bytes)
    requires IsSpaces(s) && s != []
    ensures IsSpace(s[0]) && IsSpace(s[|s| - 1])
  {
    if |s| > 1 {
      LastOfSpaces(s[1..]);
    }
  }

  /** Nothing of `r` belongs to the text `y`, and all of `y` does. */
  ghost predicate Parted(y: bytes, r: bytes) {
    && y != [] && !IsSpace(y[|y| - 1])
    && (r == [] || IsSpace(r[0]) || !Viable(y + [r[0]]))
  }

  /**
     A text before other bytes is cut off whole exactly when it does not end in white space, and the byte behind it
     is white space or makes it a start of no text.
  */
  lemma CutWhole(y: bytes, r: bytes)
    requires IsJson(y)
    ensures y != [] && (Cut(INIT, y + r) == Some(|y|) <==> Parted(y, r))
  {
    hide Trans, Run, Cut, Yield, WfDocument, IsSpaces, GoesOn, Viable;
    var d, after := TrimText(y);
    var z := Yield(d);
    if after == [] {
      Unit(z);
      CutDocument(d, r);
      if r != [] {
        GoesOnViable(d, r[0]);
      }
    } else {
      CutDocument(d, after + r);
      LastOfSpaces(after);
      if GoesOn(z, after[0]) {
        GoesOnBytes(d, after[0]);
      }
      assert z + (after + r) == y + r;
    }
  }

  /** A number goes on with a byte that is no space and leaves a start of some text. */
  lemma GoesOnViable(d: Document, c: byte)
    requires WfDocument(d) && d.after == []
    ensures GoesOn(Yield(d), c) <==> !IsSpace(c) && Viable(Yield(d) + [c])
  {
    hide Trans, Run, Trace, Yield, WfDocument, Viable, GoesOn;
    DocumentEnd(d);
    var y := Yield(d);
    GoesOnStep(y, c);
    OverAfter(Run(INIT, y), c);
    RunSplit(INIT, y, [c]);
    RunOne(Run(INIT, y), c);
    ViablePrefix(y + [c]);
    if GoesOn(y, c) {
      GoesOnBytes(d, c);
    }
  }

  lemma RunOne(q: Conf, c: byte)
    ensures Run(q, [c]) == Trans(q, c).next
  {
    assert [c][1..] == [];
  }

  /** What repeated `nextValue` calls cut off. */
  function Pieces(s: bytes): seq<bytes>
    decreases |s|
  {
    CutSome(s);
    match Cut(INIT, s)
    case None => []
    case Some(n) => [s[..n]] + Pieces(s[n..])
  }

  /** What they leave. */
  function Remainder(s: bytes): bytes
    decreases |s|
  {
    CutSome(s);
    match Cut(INIT, s)
    case None => s
    case Some(n) => Remainder(s[n..])
  }

  function Flat(pieces: seq<bytes>): bytes {
    if pieces == [] then [] else pieces[0] + Flat(pieces[1..])
  }

  /** No byte is lost or repeated, and every piece is a text or a stray comment. */
  lemma {:induction false} PiecesConserve(s: bytes)
    ensures Flat(Pieces(s)) + Remainder(s) == s
    ensures forall p | p in Pieces(s) :: p != [] && (IsJson(p) || (IsGap(p) && !IsSpaces(p)))
    ensures Cut(INIT, Remainder(s)).None?
    decreases |s|
  {
    CutSome(s);
    match Cut(INIT, s)
    case None =>
    case Some(n) =>
      hide Trans, Cut, IsGap, IsSpaces;
      CutText(s, n);
      PiecesConserve(s[n..]);
      TakeDrop(s, n);
      Assoc(s[..n], Flat(Pieces(s[n..])), Remainder(s[n..]));
      assert Pieces(s)[1..] == Pieces(s[n..]);
  }

  /** It is the first piece, with the pieces of the rest behind it, exactly when no number at its end goes on. */
  lemma PieceOfDocument(d: Document, r: bytes)
    requires WfDocument(d) && d.after == []
    ensures Pieces(Yield(d) + r) == [Yield(d)] + Pieces(r) <==> r == [] || !GoesOn(Yield(d), r[0])
  {
    hide Cut, WfDocument, Yield, GoesOn, Trans, Trace;
    DocumentEnd(d);
    CutDocument(d, r);
    PieceInFront(Yield(d), r, Pieces(r));
  }

  /** Each text is parted from what follows it. */
  ghost predicate AllParted(ys: seq<bytes>, r: bytes) {
    ys == [] || (Parted(ys[0], Flat(ys[1..]) + r) && AllParted(ys[1..], r))
  }

  /** Texts one after another are cut into those texts exactly when each is parted from what follows. */
  lemma {:induction false} PiecesOfTexts(ys: seq<bytes>, r: bytes)
    requires forall y | y in ys :: IsJson(y)
    ensures Pieces(Flat(ys) + r) == ys + Pieces(r) <==> AllParted(ys, r)
    ensures AllParted(ys, r) ==> Remainder(Flat(ys) + r) == Remainder(r)
    decreases |ys|
  {
    if ys == [] {
      Unit(r);
    } else {
      hide Cut, Parted, IsJson, Pieces, Remainder, Flat;
      var y, rest := ys[0], Flat(ys[1..]) + r;
      FirstOfTexts(ys, r, Pieces(r));
      CutWhole(y, rest);
      PieceInFront(y, rest, ys[1..] + Pieces(r));
      PiecesOfTexts(ys[1..], r);
    }
  }

  lemma FirstOfTexts(ys: seq<bytes>, r: bytes, tail: seq<bytes>)
    requires ys != []
    ensures Flat(ys) + r == ys[0] + (Flat(ys[1..]) + r)
    ensures [ys[0]] + (ys[1..] + tail) == ys + tail
  {
    HeadFirst(ys, tail);
    hide Flat;
    FlatFirst(ys);
    Assoc(ys[0], Flat(ys[1..]), r);
  }

  lemma HeadFirst<T>(a: seq<T>, b: seq<T>)
    requires a != []
    ensures [a[0]] + (a[1..] + b) == a + b
  {
  }

  lemma FlatFirst(ys: seq<bytes>)
    requires ys != []
    ensures Flat(ys) == ys[0] + Flat(ys[1..])
  {
  }

  lemma PieceInFront(y: bytes, rest: bytes, tail: seq<bytes>)
    requires y != []
    ensures Pieces(y + rest) == [y] + tail <==> Cut(INIT, y + rest) == Some(|y|) && Pieces(rest) == tail
    ensures Cut(INIT, y + rest) == Some(|y|) ==> Remainder(y + rest) == Remainder(rest)
  {
    hide Cut;
    var s := y + rest;
    CutSome(s);
    assert s[..|y|] == y && s[|y|..] == rest;
    assert ([y] + tail)[0] == y && ([y] + tail)[1..] == tail;
    if Cut(INIT, s) == Some(|y|) {
      assert Pieces(s) == [y] + Pieces(rest) && Pieces(s)[1..] == Pieces(rest);
    }
  }

  // ---------- a stream that breaks off ----------

  /** The cut of a stream; one that breaks off does not finish a value as the end of a text does. */
  function FirstCut(q: Conf, s: bytes, breaks: bool): (n: Option<nat>)
    ensures n.Some? ==> n.value <= |s|
    decreases s
  {
    if s == [] then (if (if breaks then q.endTop && !q.step.Dead? else EofOk(q)) then Some(0) else None)
    else
      var out := Trans(q, s[0]);
      if out.op.End? then Some(0)
      else if out.op.Failed? then None
      else CutAfter(1, FirstCut(out.next, s[1..], breaks))
  }

  /** Only a value that the end of the text would have finished is missed when the stream breaks off. */
  lemma {:induction false} FirstCutIsCut(q: Conf, s: bytes, breaks: bool)
    ensures FirstCut(q, s, breaks).Some? ==> FirstCut(q, s, breaks) == Cut(q, s)
    ensures FirstCut(q, s, breaks).None? && Cut(q, s).Some? ==> breaks && Cut(q, s) == Some(|s|)
    decreases s
  {
    hide Trans;
    if s == [] {
      EndTopEnds(q);
    } else {
      FirstCutIsCut(Trans(q, s[0]).next, s[1..], breaks);
    }
  }

  lemma EndTopEnds(q: Conf)
    ensures q.endTop && !q.step.Dead? ==> EofOk(q)
  {
  }
}
