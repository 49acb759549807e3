/** The loops of `compact` (common/json/indent.go) and `HTMLEscape` (common/json/encode.go). */
module CompactLoops {
  import opened Bytes
  import opened Scanning
  import opened ScannerState
  import opened Grammar
  import opened Soundness
  import opened Utf8
  import opened Quote
  import opened Escaping
  import opened Trees
  import opened Compacting
  import opened CompactResults
  import opened Buffers

  /** The bytes scanned but not yet written; `start` runs ahead of `i` inside a replaced character. */
  function Pending(src: bytes, start: nat, i: nat): bytes
    requires i <= |src|
  {
    if start <= i then src[start..i] else []
  }

  function Later(start: nat, i: nat): nat {
    if start <= i then i else start
  }

  /** Inside a replaced separator: the bytes up to `start` are its second and third. */
  predicate Between(src: bytes, start: nat, i: nat) {
    start <= |src| && start <= i + 2 && forall k | i <= k < start :: IsTail(src[k])
  }

  /** Writes the escape due at `src[i]`, if any, after what is pending; returns the new `start`. */
  method EscapeHere(dst: Buffer, src: bytes, start: nat, i: nat, html: bool) returns (next: nat)
    requires i < |src| && Between(src, start, i)
    modifies dst
    ensures match EscapeAt(src[i..], html)
            case Some(p) => start <= i && next == i + p.size
                            && dst.contents == old(dst.contents) + Pending(src, start, i) + p.out
            case None => next == start && dst.contents == old(dst.contents)
  {
    next := start;
    var c := src[i];
    if html && (c == LESS || c == GREATER || c == AMPERSAND) {
      if start < i {
        dst.Write(src[start..i]);
      }
      dst.Write([BACKSLASH, LOWER_U, ZERO, ZERO]);
      dst.WriteByte(HexDigit(c / 16));
      dst.WriteByte(HexDigit(c % 16));
      next := i + 1;
    }
    if c == 0xE2 && i + 2 < |src| && src[i + 1] == 0x80 && (src[i + 2] == 0xA8 || src[i + 2] == 0xA9) {
      if start < i {
        dst.Write(src[start..i]);
      }
      dst.Write([BACKSLASH, LOWER_U, 0x32, ZERO, 0x32]);
      dst.WriteByte(HexDigit(src[i + 2] % 16));
      next := i + 3;
    }
  }

  // ---------- HTMLEscape ----------

  /** What is written, pending and still to come, when every byte is kept. */
  function Ahead(written: bytes, src: bytes, start: nat, i: nat): bytes
    requires i <= |src| && start <= |src|
  {
    written + (Pending(src, start, i) + Escaped(src[Later(start, i)..], true))
  }

  lemma EscapedUnfold(src: bytes, i: nat, html: bool)
    requires i < |src|
    ensures var p := EscapePiece(src[i..], html);
            Escaped(src[i..], html) == p.out + Escaped(src[i + p.size..], html)
  {
    assert src[i..][EscapePiece(src[i..], html).size..] == src[i + EscapePiece(src[i..], html).size..];
  }

  /** One round of the loop keeps the outlook. */
  lemma AheadStep(written: bytes, src: bytes, start: nat, i: nat)
    requires i < |src| && Between(src, start, i)
    ensures EscapeAt(src[i..], true).None? ==> Ahead(written, src, start, i + 1) == Ahead(written, src, start, i)
    ensures EscapeAt(src[i..], true).Some? && start <= i ==>
              var p := EscapeAt(src[i..], true).value;
              i + p.size <= |src| &&
              Ahead(written + Pending(src, start, i) + p.out, src, i + p.size, i + 1) == Ahead(written, src, start, i)
  {
    hide Escaped, Ahead;
    if EscapeAt(src[i..], true).None? {
      AheadPlain(written, src, start, i);
    } else if start <= i {
      AheadEscape(written, src, start, i);
    }
  }

  lemma AheadPlain(written: bytes, src: bytes, start: nat, i: nat)
    requires i < |src| && Between(src, start, i) && EscapeAt(src[i..], true).None?
    ensures Ahead(written, src, start, i + 1) == Ahead(written, src, start, i)
  {
    hide Escaped;
    EscapedUnfold(src, i, true);
    if start <= i {
      assert src[start..i] + [src[i]] == src[start..i + 1];
      Assoc(src[start..i], [src[i]], Escaped(src[i + 1..], true));
    }
  }

  lemma AheadEscape(written: bytes, src: bytes, start: nat, i: nat)
    requires i < |src| && start <= i && EscapeAt(src[i..], true).Some?
    ensures var p := EscapeAt(src[i..], true).value;
            i + p.size <= |src| &&
            Ahead(written + Pending(src, start, i) + p.out, src, i + p.size, i + 1) == Ahead(written, src, start, i)
  {
    hide Escaped;
    EscapedUnfold(src, i, true);
    assert src[i + 1..i + 1] == [];
    var p := EscapeAt(src[i..], true).value;
    var rest := Escaped(src[i + p.size..], true);
    Unit(rest);
    Assoc(written + Pending(src, start, i), p.out, rest);
    Assoc(written, Pending(src, start, i), p.out + rest);
  }

  lemma AheadEnds(written: bytes, src: bytes, start: nat)
    requires start <= |src|
    ensures Ahead(written, src, start, |src|) == written + src[start..]
    ensures Ahead(written, src, 0, 0) == written + Escaped(src, true)
  {
    NothingEscaped();
    Whole(src, start);
    AheadStarts(written, src);
    hide Escaped;
    Unit(src[start..]);
  }

  lemma Whole(s: bytes, n: nat)
    requires n <= |s|
    ensures s[|s|..] == [] && s[n..|s|] == s[n..]
  {
  }

  lemma AheadStarts(written: bytes, src: bytes)
    ensures Ahead(written, src, 0, 0) == written + Escaped(src, true)
  {
    hide Escaped;
    assert src[0..] == src && src[0..0] == [];
    Unit(Escaped(src, true));
  }

  lemma NothingEscaped()
    ensures Escaped([], true) == []
  {
  }

  /** `HTMLEscape`. */
  method HTMLEscape(dst: Buffer, src: bytes)
    modifies dst
    ensures dst.contents == old(dst.contents) + HtmlEscape(src)
  {
    hide Escaped, Ahead, EscapeAt, Pending;
    var start := 0;
    AheadEnds(dst.contents, src, 0);
    for i := 0 to |src|
      invariant 0 <= start && Between(src, start, i)
      invariant Ahead(dst.contents, src, start, i) == old(dst.contents) + HtmlEscape(src)
    {
      AheadStep(dst.contents, src, start, i);
      SeparatorTails(src, i);
      start := EscapeHere(dst, src, start, i, true);
    }
    AheadEnds(dst.contents, src, start);
    if start < |src| {
      dst.Write(src[start..]);
    }
  }

  lemma SeparatorTails(src: bytes, i: nat)
    requires i < |src|
    ensures forall html: bool :: EscapeAt(src[i..], html).Some? ==>
              Between(src, i + EscapeAt(src[i..], html).value.size, i + 1)
  {
  }

  // ---------- compact ----------

  /** What is written, pending and still to come, when the bytes outside tokens are dropped. */
  function Outlook(written: bytes, src: bytes, es: seq<Event>, start: nat, i: nat, html: bool): bytes
    requires i <= |src| == |es| && start <= |src|
  {
    written + (Pending(src, start, i) + Styled(es[Later(start, i)..], Compacted(html)))
  }

  /** A byte outside ASCII that belongs to no token stands in a comment. */
  lemma HighInComment(q: Conf, c: byte, d: byte)
    requires c >= RUNE_SELF && d >= RUNE_SELF && Trans(q, c).op.SkipSpace?
    ensures Trans(q, c).next == q && Trans(q, d).op.SkipSpace?
  {
  }

  /** So do the bytes outside ASCII after it. */
  lemma {:induction false} HighRun(src: bytes, i: nat, n: nat)
    requires i < n <= |src| && Trace(INIT, src)[i].op.SkipSpace?
    requires forall k | i <= k < n :: src[k] >= RUNE_SELF
    ensures forall k | i <= k < n :: Trace(INIT, src)[k].op.SkipSpace?
    decreases n - i
  {
    hide Trans, Trace;
    RunAt(INIT, src, i);
    if i + 1 < n {
      RunAt(INIT, src, i + 1);
      HighInComment(Run(INIT, src[..i]), src[i], src[i + 1]);
      HighRun(src, i + 1, n);
    }
  }

  lemma StyledUnfold(src: bytes, es: seq<Event>, i: nat, html: bool)
    requires i < |src| && Text(es) == src
    ensures Styled(es[i..], Compacted(html)) ==
            match EscapeAt(src[i..], html)
            case Some(p) => p.out + Styled(es[i + p.size..], Compacted(html))
            case None => (if Skips(es[i].op) then [] else [src[i]]) + Styled(es[i + 1..], Compacted(html))
  {
    hide Text, EscapeAt;
    TextDrop(es, i);
    TextAt(es, i);
    var p := EscapeAt(src[i..], html);
    assert es[i..][1..] == es[i + 1..];
    assert p.Some? ==> es[i..][p.value.size..] == es[i + p.value.size..];
  }

  lemma TextAt(es: seq<Event>, i: nat)
    requires i < |es|
    ensures Text(es)[i] == es[i].c
  {
  }

  /** Dropped continuation bytes leave nothing behind. */
  lemma {:induction false} SkipTails(src: bytes, es: seq<Event>, a: nat, b: nat, html: bool)
    requires a <= b <= |src| && Text(es) == src
    requires forall k | a <= k < b :: IsTail(src[k]) && Skips(es[k].op)
    ensures Styled(es[a..], Compacted(html)) == Styled(es[b..], Compacted(html))
    decreases b - a
  {
    hide Styled, Text;
    if a < b {
      StyledUnfold(src, es, a, html);
      SkipTails(src, es, a + 1, b, html);
    }
  }

  /** A byte of a token, or an escape: what the loop leaves for the next round. */
  lemma KeepStep(written: bytes, src: bytes, es: seq<Event>, start: nat, i: nat, html: bool)
    requires i < |src| && Text(es) == src && Between(src, start, i) && !Skips(es[i].op)
    ensures EscapeAt(src[i..], html).None? ==>
              Outlook(written, src, es, start, i + 1, html) == Outlook(written, src, es, start, i, html)
    ensures EscapeAt(src[i..], html).Some? && start <= i ==>
              var p := EscapeAt(src[i..], html).value;
              i + p.size <= |src| &&
              Outlook(written + Pending(src, start, i) + p.out, src, es, i + p.size, i + 1, html)
              == Outlook(written, src, es, start, i, html)
  {
    hide Styled, Text, EscapeAt, Pending;
    StyledUnfold(src, es, i, html);
    PendingNothing(src, start, i);
    if EscapeAt(src[i..], html).Some? {
      var p := EscapeAt(src[i..], html).value;
      var tail := Styled(es[i + p.size..], Compacted(html));
      PendingNothing(src, i + p.size, i);
      Unit(tail);
      Assoc(written, Pending(src, start, i), p.out + tail);
      Assoc(written + Pending(src, start, i), p.out, tail);
    } else if start <= i {
      PendingGrows(src, start, i);
      Assoc(Pending(src, start, i), [src[i]], Styled(es[i + 1..], Compacted(html)));
    }
  }

  lemma PendingGrows(src: bytes, start: nat, i: nat)
    requires start <= i < |src|
    ensures Pending(src, start, i + 1) == Pending(src, start, i) + [src[i]]
  {
  }

  /** Where `start` stands after `EscapeHere`. */
  function Next(src: bytes, start: nat, i: nat, html: bool): nat
    requires i < |src|
  {
    match EscapeAt(src[i..], html)
    case Some(p) => i + p.size
    case None => start
  }

  lemma NextSkips(src: bytes, start: nat, i: nat, html: bool)
    requires i < |src| && Between(src, start, i) && Trace(INIT, src)[i].op.SkipSpace?
    ensures Between(src, Next(src, start, i, html), i + 1)
    ensures forall k | i < k < Next(src, start, i, html) :: Skips(Trace(INIT, src)[k].op)
  {
    hide Trace;
    SeparatorTails(src, i);
    var next := Next(src, start, i, html);
    if i + 1 < next {
      HighRun(src, i, next);
    }
  }

  /** A byte of no token: pending bytes are written, and `start` moves on. */
  lemma DropStep(written: bytes, src: bytes, es: seq<Event>, start: nat, i: nat, html: bool)
    requires i < |src| && Text(es) == src && Between(src, start, i) && Skips(es[i].op)
    requires Between(src, Next(src, start, i, html), i + 1)
    requires forall k | i < k < Next(src, start, i, html) :: Skips(es[k].op)
    ensures EscapeAt(src[i..], html).None? ==>
              Outlook(written + Pending(src, start, i), src, es, i + 1, i + 1, html)
              == Outlook(written, src, es, start, i, html)
    ensures EscapeAt(src[i..], html).Some? && start <= i ==>
              var p := EscapeAt(src[i..], html).value;
              Outlook(written + Pending(src, start, i) + p.out, src, es, i + 1, i + 1, html)
              == Outlook(written, src, es, start, i, html)
  {
    hide Styled, Text, EscapeAt, Pending;
    StyledUnfold(src, es, i, html);
    PendingNothing(src, start, i);
    var tail := Styled(es[i + 1..], Compacted(html));
    var next := Next(src, start, i, html);
    if i + 1 < next {
      SkipTails(src, es, i + 1, next, html);
    }
    Unit(tail);
    Assoc(written, Pending(src, start, i), tail);
    if EscapeAt(src[i..], html).Some? {
      var e := EscapeAt(src[i..], html).value.out;
      Assoc(written, Pending(src, start, i), e + tail);
      Assoc(written + Pending(src, start, i), e, tail);
    }
  }

  lemma PendingNothing(src: bytes, start: nat, i: nat)
    requires i < |src|
    ensures Pending(src, i + 1, i + 1) == []
    ensures start > i ==> Pending(src, start, i) == [] && Pending(src, start, i + 1) == []
  {
  }

  lemma OutlookEnds(written: bytes, src: bytes, start: nat, html: bool)
    requires start <= |src|
    ensures var es := Trace(INIT, src);
            Outlook(written, src, es, start, |src|, html) == written + src[start..]
    ensures Outlook(written, src, Trace(INIT, src), 0, 0, html) == written + Compact(src, html)
  {
    var es := Trace(INIT, src);
    hide Trace;
    assert es[|src|..] == [] && src[start..|src|] == src[start..] && es[0..] == es && src[0..0] == [];
    assert Styled([], Compacted(html)) == [];
    hide Styled;
    Unit(src[start..]);
    Unit(Styled(es, Compacted(html)));
  }

  /** Only white space may follow the top-level value. */
  lemma EndsAlive(q: Conf, c: byte)
    requires Trans(q, c).op.End?
    ensures IsSpace(c) || Trans(q, c).next.step.Dead?
  {
    if InLiteral(q.step) {
      TransInLiteral(q, c);
    }
  }

  lemma SpaceStays(src: bytes, start: nat, i: nat, html: bool)
    requires i < |src| && Between(src, start, i) && IsSpace(src[i])
    ensures EscapeAt(src[i..], html).None? && start <= i
  {
  }

  /** The end of a round, after the scanner has returned `op`: writes what is pending before a dropped byte. */
  method EndRound(dst: Buffer, src: bytes, ghost es: seq<Event>, ghost written: bytes, ghost start: nat,
                  ghost html: bool, middle: nat, i: nat, op: Op) returns (next: nat)
    requires i < |src| && Text(es) == src && Between(src, start, i) && op == es[i].op
    requires middle == Next(src, start, i, html)
    requires EscapeAt(src[i..], html).Some? ==> start <= i
    requires dst.contents == match EscapeAt(src[i..], html)
                             case Some(p) => written + Pending(src, start, i) + p.out
                             case None => written
    requires op.SkipSpace? ==> forall k | i < k < middle :: Skips(es[k].op)
    modifies dst
    ensures Between(src, next, i + 1) && next <= |src| && old(dst.contents) <= dst.contents
    ensures !op.Failed? && (op.End? ==> IsSpace(src[i])) ==>
      Outlook(dst.contents, src, es, next, i + 1, html) == Outlook(written, src, es, start, i, html)
  {
    hide EscapeAt, Text, Styled;
    SeparatorTails(src, i);
    if IsSpace(src[i]) {
      SpaceStays(src, start, i, html);
    }
    next := middle;
    if Skips(op) {
      if op.SkipSpace? || (op.End? && IsSpace(src[i])) {
        DropStep(written, src, es, start, i, html);
      }
      if next < i {
        dst.Write(src[next..i]);
      }
      next := i + 1;
    } else {
      KeepStep(written, src, es, start, i, html);
    }
  }

  lemma StartsReady(src: bytes)
    ensures Between(src, 0, 0) && Run(INIT, src[..0]) == INIT && src[..|src|] == src
    ensures Accepts(INIT, src) <==> EofOk(Run(INIT, src))
  {
  }

  lemma BetweenEnds(src: bytes, start: nat, i: nat)
    requires Between(src, start, i)
    ensures start <= |src|
  {
  }

  /** `compact`: the compacted text is appended, or nothing at all. */
  method CompactInto(dst: Buffer, src: bytes, html: bool) returns (err: Option<SyntaxError>)
    modifies dst
    ensures err.None? <==> IsJson(src)
    ensures err == Diagnosis(INIT, src, 0, false)
    ensures dst.contents == old(dst.contents) + if err.None? then Compact(src, html) else []
  {
    hide Trace, Run, Trans, Fits, IsJson, Accepts, Outlook, EscapeAt, Pending, Text, Styled, Compact, Between,
      Diagnosis, Unended;
    var origLen := |dst.contents|;
    var scan := new Scanner();
    var start, i := 0, 0;
    ghost var es := Trace(INIT, src);
    OutlookEnds(dst.contents, src, 0, html);
    TraceText(INIT, src);
    Language(src);
    StartsReady(src);
    CheckStarts(src, scan, false);
    while i < |src|
      invariant 0 <= start <= |src| && i <= |src| && Between(src, start, i)
      invariant scan.Valid() && scan.Ready() && scan.Tracking() && scan.Conf() == Run(INIT, src[..i])
      invariant Checked(scan, src, i, 0, false)
      invariant old(dst.contents) <= dst.contents
      invariant !scan.Conf().step.Dead? ==>
        Outlook(dst.contents, src, es, start, i, html) == old(dst.contents) + Compact(src, html)
    {
      RunAt(INIT, src, i);
      ghost var written := dst.contents;
      var middle := EscapeHere(dst, src, start, i, html);
      var op := CheckByte(src[i], scan, src, i, 0, false);
      if op == Failed {
        DeadPrefix(INIT, src, i + 1);
        break;
      }
      if op.SkipSpace? {
        NextSkips(src, start, i, html);
      } else if op.End? {
        EndsAlive(Run(INIT, src[..i]), src[i]);
      }
      start := EndRound(dst, src, es, written, start, html, middle, i, op);
      i := i + 1;
    }
    BetweenEnds(src, start, i);
    if i == |src| {
      CheckEnds(src, scan, 0, false);
    }
    var op := scan.Eof();
    if op == Failed {
      dst.Truncate(origLen);
      return scan.err;
    }
    OutlookEnds(dst.contents, src, start, html);
    if start < |src| {
      dst.Write(src[start..]);
    }
    return None;
  }
}
