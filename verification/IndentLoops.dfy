/** The loop of `Indent` (common/json/indent.go). */
module IndentLoops {
  import opened Bytes
  import opened Scanning
  import opened ScannerState
  import opened Grammar
  import opened Soundness
  import opened Indenting
  import opened Buffers

  /** The braces and brackets of a live scanner come with their opcodes, and only with them. */
  lemma OpChars(q: Conf, c: byte)
    requires !q.step.Redo? && !Trans(q, c).next.step.Dead?
    ensures var op := Trans(q, c).op;
      !op.SkipSpace? && !op.Continue? ==>
        ((op.BeginObject? || op.BeginArray?) <==> (c == LBRACE || c == LBRACKET))
        && ((op.EndObject? || op.EndArray?) <==> (c == RBRACE || c == RBRACKET))
  {
    if InLiteral(q.step) {
      TransInLiteral(q, c);
    }
  }

  /** `depth`, and one more while a newline is pending. */
  function Depth(lay: Layout): int {
    lay.depth + if lay.need then 1 else 0
  }

  /** The layout follows the stack of the scanner. */
  lemma DepthStep(q: Conf, lay: Layout, c: byte)
    requires Fits(q) && Depth(lay) == |q.stack| && !Trans(q, c).next.step.Dead?
    ensures Depth(StepLayout(lay, Event(c, Trans(q, c).op))) == |Trans(q, c).next.stack|
  {
    FitsStep(q, c);
    OpChars(q, c);
    hide Trans, Fits;
  }

  /** In every live run, Indent's depth plus its pending flag is the stack depth. */
  lemma {:induction false} DepthIsStackDepth(q: Conf, s: bytes, lay: Layout)
    requires Fits(q) && Depth(lay) == |q.stack| && !Run(q, s).step.Dead?
    ensures Depth(After(Trace(q, s), lay)) == |Run(q, s).stack|
    decreases s
  {
    if s != [] {
      var out := Trans(q, s[0]);
      if out.next.step.Dead? {
        DeadForever(out.next, s[1..]);
      } else {
        DepthStep(q, lay, s[0]);
        FitsStep(q, s[0]);
        assert Trace(q, s)[1..] == Trace(out.next, s[1..]);
        DepthIsStackDepth(out.next, s[1..], StepLayout(lay, Event(s[0], out.op)));
      }
    }
  }

  lemma RepeatSnoc(s: bytes, n: nat)
    ensures Repeat(s, n + 1) == Repeat(s, n) + s
  {
    if n == 0 {
      assert Repeat(s, 1) == s + Repeat(s, 0);
      Unit(s);
    } else {
      RepeatSnoc(s, n - 1);
      Assoc(s, Repeat(s, n - 1), s);
    }
  }

  /** `newline`. */
  method WriteNewline(dst: Buffer, f: Format, depth: int)
    modifies dst
    ensures dst.contents == old(dst.contents) + Newline(f, depth)
  {
    dst.WriteByte(NEWLINE);
    dst.Write(f.prefix);
    var i := 0;
    ghost var start := dst.contents;
    while i < depth
      invariant 0 <= i && (i <= depth || i == 0)
      invariant dst.contents == start + Repeat(f.indent, i)
    {
      RepeatSnoc(f.indent, i);
      Assoc(start, Repeat(f.indent, i), f.indent);
      dst.Write(f.indent);
      i := i + 1;
    }
  }

  /** The switch on a byte that is neither skipped nor inside a token. */
  method WritePunctuation(dst: Buffer, f: Format, need: bool, depth: int, c: byte, op: Op)
    returns (need': bool, depth': int)
    requires !op.SkipSpace? && !op.Failed? && !op.Continue?
    modifies dst
    ensures dst.contents == old(dst.contents) + Punctuated(Layout(need, depth), Event(c, op), f)
    ensures !Wakes(Layout(need, depth), op) ==>
              Layout(need', depth') == StepLayout(Layout(need, depth), Event(c, op))
  {
    need', depth' := need, depth;
    if c == LBRACE || c == LBRACKET {
      need' := true;
      dst.WriteByte(c);
    } else if c == COMMA {
      dst.WriteByte(c);
      WriteNewline(dst, f, depth);
    } else if c == COLON {
      dst.WriteByte(c);
      dst.WriteByte(SPACE);
    } else if c == RBRACE || c == RBRACKET {
      if need {
        need' := false;
      } else {
        depth' := depth - 1;
        WriteNewline(dst, f, depth');
      }
      dst.WriteByte(c);
    } else {
      dst.WriteByte(c);
    }
  }

  /** One round of the loop, once the scanner has returned `op`. */
  method Round(dst: Buffer, f: Format, need: bool, depth: int, c: byte, op: Op) returns (need': bool, depth': int)
    requires !op.Failed?
    modifies dst
    ensures dst.contents == old(dst.contents) + StepOut(Layout(need, depth), Event(c, op), f)
    ensures Layout(need', depth') == StepLayout(Layout(need, depth), Event(c, op))
  {
    hide Newline;
    need', depth' := need, depth;
    if op.SkipSpace? {
      return;
    }
    if need' && !op.EndObject? && !op.EndArray? {
      need' := false;
      depth' := depth' + 1;
      WriteNewline(dst, f, depth');
    }
    if op.Continue? {
      dst.WriteByte(c);
      return;
    }
    need', depth' := WritePunctuation(dst, f, need', depth', c, op);
  }

  lemma IndentedAt(src: bytes, i: nat, f: Format)
    requires i < |src|
    ensures var es, lay := Trace(INIT, src), After(Trace(INIT, src[..i]), Layout(false, 0));
      After(Trace(INIT, src[..i + 1]), Layout(false, 0)) == StepLayout(lay, es[i])
      && Indented(Trace(INIT, src[..i + 1]), Layout(false, 0), f)
         == Indented(Trace(INIT, src[..i]), Layout(false, 0), f) + StepOut(lay, es[i], f)
  {
    hide Trans, Trace, Run, StepOut, StepLayout;
    RunAt(INIT, src, i);
    var start, a, e := Layout(false, 0), Trace(INIT, src[..i]), Trace(INIT, src)[i];
    LaysOne(After(a, start), e, f);
    LaysThen(start, a, f, Indented(a, start, f), After(a, start), [e], StepOut(After(a, start), e, f),
             StepLayout(After(a, start), e));
  }

  /** `Indent`: the indented text is appended, or nothing at all. */
  method IndentInto(dst: Buffer, src: bytes, f: Format) returns (err: Option<SyntaxError>)
    modifies dst
    ensures err.None? <==> IsJson(src)
    ensures err == Diagnosis(INIT, src, 0, true)
    ensures dst.contents == old(dst.contents) + if err.None? then Indent(src, f) else []
  {
    hide Trans, Trace, Run, Fits, IsJson, Indented, After, StepOut, StepLayout, Accepts, Diagnosis, Unended;
    var origLen := |dst.contents|;
    var scan := new Scanner();
    var need, depth, i := false, 0, 0;
    Language(src);
    IndentStarts(src, f);
    CheckStarts(src, scan, true);
    while i < |src|
      invariant 0 <= i <= |src|
      invariant scan.Valid() && scan.Ready() && scan.Tracking() && scan.Conf() == Run(INIT, src[..i])
      invariant Checked(scan, src, i, 0, true)
      invariant dst.contents == old(dst.contents) + Indented(Trace(INIT, src[..i]), Layout(false, 0), f)
      invariant Layout(need, depth) == After(Trace(INIT, src[..i]), Layout(false, 0))
      invariant !scan.step.Dead? ==> depth + (if need then 1 else 0) == |scan.parseState|
    {
      RunAt(INIT, src, i);
      IndentedAt(src, i, f);
      scan.consumed := scan.consumed + 1;
      var op := CheckByte(src[i], scan, src, i, 0, true);
      if op == Failed {
        DeadPrefix(INIT, src, i + 1);
        break;
      }
      LayoutFollows(src, i + 1);
      need, depth := Round(dst, f, need, depth, src[i], op);
      i := i + 1;
    }
    if i == |src| {
      CheckEnds(src, scan, 0, true);
    }
    var op := scan.Eof();
    if op == Failed {
      dst.Truncate(origLen);
      return scan.err;
    }
    return None;
  }

  lemma LayoutFollows(src: bytes, i: nat)
    requires i <= |src|
    ensures var lay := After(Trace(INIT, src[..i]), Layout(false, 0));
      !Run(INIT, src[..i]).step.Dead? ==> Depth(lay) == |Run(INIT, src[..i]).stack|
  {
    if !Run(INIT, src[..i]).step.Dead? {
      DepthIsStackDepth(INIT, src[..i], Layout(false, 0));
    }
  }

  lemma IndentStarts(src: bytes, f: Format)
    ensures Run(INIT, src[..0]) == INIT && src[..|src|] == src
    ensures Indented(Trace(INIT, src[..0]), Layout(false, 0), f) == []
    ensures After(Trace(INIT, src[..0]), Layout(false, 0)) == Layout(false, 0)
    ensures Accepts(INIT, src) <==> EofOk(Run(INIT, src))
  {
  }
}
