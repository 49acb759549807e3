/** Where `Indent` breaks lines, and how far it indents them. */
module Layouts {
  import opened Bytes
  import opened Scanning
  import opened Grammar
  import opened Soundness
  import opened Indenting
  import opened IndentLoops
  import opened Cuts

  // ---------- one line break ----------

  /** Where copy `i` of the indent starts. */
  function Column(f: Format, i: nat): nat {
    1 + |f.prefix| + i * |f.indent|
  }

  /** A newline, the prefix, and `n` copies of the indent. */
  predicate IsBreak(s: bytes, f: Format, n: nat) {
    && |s| == Column(f, n) && s[0] == '\n' as int && s[1..1 + |f.prefix|] == f.prefix
    && forall i | 0 <= i < n :: Copies(s, f, i)
  }

  /** Copy `i` of the indent, byte by byte. */
  predicate Copies(s: bytes, f: Format, i: nat) {
    Column(f, i) + |f.indent| <= |s| && forall j | 0 <= j < |f.indent| :: s[Column(f, i) + j] == f.indent[j]
  }

  lemma {:induction false} RepeatSize(s: bytes, n: nat)
    ensures |Repeat(s, n)| == n * |s|
  {
    if n > 0 {
      RepeatSize(s, n - 1);
      Product(n, |s|);
    }
  }

  lemma Product(n: nat, k: nat)
    requires n > 0
    ensures n * k == (n - 1) * k + k
  {
  }

  lemma {:induction false} NewlineBreaks(f: Format, n: nat)
    ensures IsBreak(Newline(f, n), f, n)
    decreases n
  {
    RepeatSize(f.indent, n);
    if n > 0 {
      NewlineBreaks(f, n - 1);
      RepeatSnoc(f.indent, n - 1);
      Product(n, |f.indent|);
      RepeatSize(f.indent, n - 1);
      var s, t := Newline(f, n), Newline(f, n - 1);
      Assoc([NEWLINE] + f.prefix, Repeat(f.indent, n - 1), f.indent);
      assert s == t + f.indent;
      forall i | 0 <= i < n ensures Copies(s, f, i) {
        if i < n - 1 {
          assert Copies(t, f, i);
        }
      }
    }
  }

  // ---------- every byte of the output ----------

  /** Nothing but gaps has come since a bracket or brace was opened. */
  predicate JustOpened(es: seq<Event>)
    decreases |es|
  {
    es != [] &&
    var e := es[|es| - 1];
    if e.op.SkipSpace? then JustOpened(es[..|es| - 1]) else e.op.BeginObject? || e.op.BeginArray?
  }

  predicate Closes(op: Op) {
    op.EndObject? || op.EndArray?
  }

  /** The line break before a byte: of the first token after an opening bracket, and of a bracket that closes. */
  predicate BreaksBefore(s: bytes, first: bool, op: Op, f: Format, depth: nat, after: nat) {
    if first && !Closes(op) then IsBreak(s, f, depth)
    else if Closes(op) && !first then IsBreak(s, f, after)
    else s == []
  }

  /** What follows a byte: a line break after a comma, a space after a colon. */
  predicate Separates(s: bytes, op: Op, f: Format, depth: nat) {
    if op.ArrayValueDone? || op.ObjectValueDone? then IsBreak(s, f, depth)
    else s == if op.ObjectKeyDone? then [' ' as int] else []
  }

  /** What is written for byte `i` of `src`; the depth of a line is that of the scanner's stack. */
  ghost predicate Laid(src: bytes, i: nat, f: Format, s: bytes)
    requires i < |src|
  {
    var op := Trace(INIT, src)[i].op;
    var depth, after := |Run(INIT, src[..i]).stack|, |Run(INIT, src[..i + 1]).stack|;
    if op.SkipSpace? then s == []
    else exists a, b ::
      && s == a + [src[i]] + b && Separates(b, op, f, after)
      && BreaksBefore(a, JustOpened(Trace(INIT, src[..i])), op, f, depth, after)
  }

  /** Commas and colons outside strings come with their opcodes. */
  lemma SeparatorOps(q: Conf, c: byte)
    requires !q.step.Redo? && !Trans(q, c).next.step.Dead?
    ensures var op := Trans(q, c).op;
      !op.SkipSpace? && !op.Continue? ==>
        ((op.ArrayValueDone? || op.ObjectValueDone?) <==> c == COMMA) && (op.ObjectKeyDone? <==> c == COLON)
  {
    if InLiteral(q.step) {
      TransInLiteral(q, c);
    }
  }

  /** The pending flag is the memory of an opening bracket. */
  lemma NeedStep(q: Conf, lay: Layout, es: seq<Event>, c: byte)
    requires !q.step.Redo? && !Trans(q, c).next.step.Dead? && (lay.need <==> JustOpened(es))
    ensures var e := Event(c, Trans(q, c).op); StepLayout(lay, e).need <==> JustOpened(es + [e])
  {
    var e := Event(c, Trans(q, c).op);
    OpChars(q, c);
    OpsAlive(q, c);
    hide Trans;
    assert (es + [e])[..|es|] == es;
  }

  lemma OpsAlive(q: Conf, c: byte)
    requires !Trans(q, c).next.step.Dead?
    ensures !Trans(q, c).op.Failed? || q.step.Redo?
  {
    if InLiteral(q.step) {
      TransInLiteral(q, c);
    }
  }

  const START := Layout(false, 0)

  lemma {:induction false} NeedIsJustOpened(src: bytes, i: nat)
    requires i <= |src| && !Run(INIT, src[..i]).step.Dead?
    ensures After(Trace(INIT, src[..i]), START).need <==> JustOpened(Trace(INIT, src[..i]))
    decreases i
  {
    hide Trans, Fits, StepLayout;
    if i == 0 {
      assert src[..0] == [];
    } else {
      RunAt(INIT, src, i - 1);
      StartFits();
      RunFits(INIT, src[..i - 1]);
      AliveBefore(src, i - 1);
      NeedIsJustOpened(src, i - 1);
      IndentedAt(src, i - 1, Format([], []));
      NotRedo(Run(INIT, src[..i - 1]));
      NeedStep(Run(INIT, src[..i - 1]), After(Trace(INIT, src[..i - 1]), START), Trace(INIT, src[..i - 1]), src[i - 1]);
    }
  }

  lemma NotRedo(q: Conf)
    requires Fits(q)
    ensures !q.step.Redo?
  {
  }

  lemma AliveBefore(src: bytes, i: nat)
    requires i < |src| && !Run(INIT, src[..i + 1]).step.Dead?
    ensures !Run(INIT, src[..i]).step.Dead?
  {
    RunAt(INIT, src, i);
  }

  /** One step of the layout writes what is due, with the depths of the stack before and after the byte. */
  lemma StepLaid(lay: Layout, op: Op, c: byte, f: Format, depth: nat, after: nat)
    requires !op.SkipSpace? && !op.Failed?
    requires Depth(lay) == depth && Depth(StepLayout(lay, Event(c, op))) == after
    requires !op.Continue? ==>
      && ((op.BeginObject? || op.BeginArray?) <==> (c == LBRACE || c == LBRACKET))
      && ((op.EndObject? || op.EndArray?) <==> (c == RBRACE || c == RBRACKET))
      && ((op.ArrayValueDone? || op.ObjectValueDone?) <==> c == COMMA) && (op.ObjectKeyDone? <==> c == COLON)
    ensures exists a, b ::
      && StepOut(lay, Event(c, op), f) == a + [c] + b && Separates(b, op, f, after)
      && BreaksBefore(a, lay.need, op, f, depth, after)
  {
    NewlineBreaks(f, depth);
    NewlineBreaks(f, after);
    hide Newline, IsBreak;
    var a := if lay.need && !Closes(op) then Newline(f, depth)
             else if Closes(op) && !lay.need then Newline(f, after) else [];
    var b := if op.Continue? then [] else if c == COMMA then Newline(f, after) else if c == COLON then [SPACE] else [];
    assert Separates(b, op, f, after);
    assert BreaksBefore(a, lay.need, op, f, depth, after);
    assert StepOut(lay, Event(c, op), f) == a + [c] + b;
  }

  lemma PieceLaid(src: bytes, i: nat, f: Format)
    requires i < |src| && !Run(INIT, src[..i + 1]).step.Dead?
    ensures Laid(src, i, f, StepOut(After(Trace(INIT, src[..i]), START), Trace(INIT, src)[i], f))
  {
    hide Trans, Fits, StepLayout, StepOut, Separates, BreaksBefore;
    var q, lay := Run(INIT, src[..i]), After(Trace(INIT, src[..i]), START);
    RunAt(INIT, src, i);
    AliveBefore(src, i);
    StartFits();
    RunFits(INIT, src[..i]);
    NotRedo(q);
    LayoutFollows(src, i);
    LayoutFollows(src, i + 1);
    IndentedAt(src, i, f);
    NeedIsJustOpened(src, i);
    OpChars(q, src[i]);
    SeparatorOps(q, src[i]);
    OpsAlive(q, src[i]);
    var op := Trans(q, src[i]).op;
    if op.SkipSpace? {
      Skipped(lay, src[i], f);
    } else {
      StepLaid(lay, op, src[i], f, |q.stack|, |Run(INIT, src[..i + 1]).stack|);
    }
  }

  lemma Skipped(lay: Layout, c: byte, f: Format)
    ensures StepOut(lay, Event(c, SkipSpace), f) == []
  {
  }

  lemma {:induction false} FlatSnoc(pieces: seq<bytes>, s: bytes)
    ensures Flat(pieces + [s]) == Flat(pieces) + s
    decreases |pieces|
  {
    if pieces == [] {
      assert [s][1..] == [] && [] + [s] == [s];
      Unit(s);
    } else {
      assert (pieces + [s])[0] == pieces[0] && (pieces + [s])[1..] == pieces[1..] + [s];
      FlatSnoc(pieces[1..], s);
      Assoc(pieces[0], Flat(pieces[1..]), s);
    }
  }

  lemma {:induction false} PrefixLaid(src: bytes, i: nat, f: Format) returns (pieces: seq<bytes>)
    requires i <= |src| && !Run(INIT, src[..i]).step.Dead?
    ensures |pieces| == i && Flat(pieces) == Indented(Trace(INIT, src[..i]), START, f)
    ensures forall j | 0 <= j < i :: Laid(src, j, f, pieces[j])
    decreases i
  {
    hide Trans, Laid, StepOut, StepLayout, Indented, After;
    if i == 0 {
      pieces := [];
      IndentStarts(src, f);
    } else {
      AliveBefore(src, i - 1);
      pieces := PrefixLaid(src, i - 1, f);
      IndentedAt(src, i - 1, f);
      PieceLaid(src, i - 1, f);
      var s := StepOut(After(Trace(INIT, src[..i - 1]), START), Trace(INIT, src)[i - 1], f);
      FlatSnoc(pieces, s);
      pieces := pieces + [s];
    }
  }

  /**
     The output of `Indent` for an accepted text, byte by byte: gaps are dropped, every other byte is kept, and every
     line that is started carries the prefix and one indent for each bracket or brace that is open there.
   */
  lemma IndentLaidOut(src: bytes, f: Format)
    requires IsJson(src)
    ensures exists pieces: seq<bytes> ::
      && |pieces| == |src| && Indent(src, f) == Flat(pieces)
      && forall i | 0 <= i < |src| :: Laid(src, i, f, pieces[i])
  {
    hide Laid, Trans, Indented, Trace, Run;
    Language(src);
    IndentStarts(src, f);
    var pieces := PrefixLaid(src, |src|, f);
  }
}
