/** The stream decoder (common/json/stream.go) over a reader that delivers a finite stream in any chunks. */
module Streams {
  import opened Bytes
  import opened Scanning
  import opened ScannerState
  import opened Grammar
  import opened Trees
  import opened Viability
  import opened Cuts
  import opened Decoding
  import opened Meanings
  import opened Spellings

  /** `Broken` stands for any error of the reader but the end of the stream. */
  datatype StreamError = EOF | UnexpectedEOF | Broken | Malformed(e: Option<SyntaxError>)

  /** Why a stream that holds no further value stops the decoder. */
  predicate Stops(e: StreamError, s: bytes, breaks: bool, count: int) {
    if Run(INIT, s).step.Dead? then e == Malformed(Diagnosis(INIT, s, count, true))
    else if breaks then e == Broken
    else e == if IsSpaces(s) then EOF else UnexpectedEOF
  }

  /** The end of a value at `n` shows only in the byte behind it, unless the value closes itself or the stream ends. */
  predicate LooksAhead(s: bytes, n: nat)
    requires n <= |s|
  {
    n < |s| && !Run(INIT, s[..n]).endTop
  }

  /** Malformed is what no continuation makes a text. */
  lemma StopsMeans(e: StreamError, s: bytes, breaks: bool, count: int)
    requires Stops(e, s, breaks, count)
    ensures e.Malformed? <==> forall t: bytes :: !IsJson(s + t)
  {
    ViablePrefix(s);
  }

  /**
     The other three: what is ahead breaks off, could stand behind a finished text, so that nothing has begun, or is
     the unfinished beginning of something.
   */
  lemma StopsTells(e: StreamError, s: bytes, breaks: bool, count: int)
    requires Stops(e, s, breaks, count)
    ensures e == Broken <==> breaks && Viable(s)
    ensures e == EOF <==> !breaks && IsJson(Ascii("true") + s)
    ensures e == UnexpectedEOF <==> !breaks && Viable(s) && !IsJson(Ascii("true") + s)
  {
    hide Run, Viable, IsJson;
    ViablePrefix(s);
    TrueThen(s);
    if IsSpaces(s) {
      SpacesAlive(s);
    }
  }

  lemma {:induction false} SpacesAlive(s: bytes)
    requires IsSpaces(s)
    ensures Run(INIT, s) == INIT
    decreases |s|
  {
    if s != [] {
      assert s[0] in s && forall c | c in s[1..] :: c in s;
      SpaceAtStart(s[0]);
      hide Trans;
      SpacesAlive(s[1..]);
    }
  }

  lemma SpaceAtStart(c: byte)
    requires IsSpace(c)
    ensures Trans(INIT, c).next == INIT
  {
  }

  /** One planned read: how many bytes at most, and whether the end is reported together with the last bytes. */
  datatype Chunk = Chunk(size: nat, eager: bool)

  class Reader {
    var unread: bytes
    var plan: seq<Chunk>  // after the plan a read delivers all that fits
    const breaks: bool    // the stream ends in an error of its own

    constructor (s: bytes, plan: seq<Chunk>, breaks: bool)
      ensures unread == s && this.plan == plan && this.breaks == breaks
    {
      unread := s;
      this.plan := plan;
      this.breaks := breaks;
    }

    function Size(room: nat): nat
      reads this
    {
      var most := if plan != [] && plan[0].size < room then plan[0].size else room;
      if |unread| < most then |unread| else most
    }

    /** Fills some of `p` from `from` on. */
    method Read(p: array<byte>, from: nat) returns (n: nat, err: Option<StreamError>)
      requires from < p.Length
      modifies this, p
      ensures n <= p.Length - from && n <= |old(unread)| && unread == old(unread)[n..]
      ensures p[..from] == old(p[..from]) && p[from..from + n] == old(unread)[..n]
      ensures err.Some? ==> unread == [] && err.value == if breaks then Broken else EOF
      ensures |plan| <= |old(plan)| && (err.Some? || n > 0 || |plan| < |old(plan)|)
    {
      n := Size(p.Length - from);
      var last := n == |unread|;
      var over := last && (n == 0 || (plan != [] && plan[0].eager));
      err := if !over then None else if breaks then Some(Broken) else Some(EOF);
      if plan != [] {
        plan := plan[1..];
      }
      for i := 0 to n
        modifies p
        invariant p[..from] == old(p[..from])
        invariant forall j | 0 <= j < i :: p[from + j] == unread[j]
      {
        p[from + i] := unread[i];
      }
      assert p[from..from + n] == unread[..n];
      unread := unread[n..];
    }
  }

  class Decoder {
    const r: Reader
    var mem: array<byte>  // the buffer's whole capacity
    var len: nat          // the part of it in use
    const d: DecodeState
    const scan: Scanner
    var err: Option<StreamError>
    ghost var Repr: set<object>

    ghost predicate Valid()
      reads this, Repr
    {
      && Repr == {this, r, mem, d, d.scan, scan}
      && scan != d.scan && len <= mem.Length
    }

    /** The bytes in use. */
    function Buf(): bytes
      reads this, mem
      requires len <= mem.Length
    {
      mem[..len]
    }

    /** Everything that has not been returned: what is buffered, and what is still to be read. */
    ghost function Ahead(): bytes
      reads this, mem, r
      requires len <= mem.Length
    {
      mem[..len] + r.unread
    }

    constructor (r: Reader)
      ensures Valid() && fresh(Repr - {r}) && this.r == r
      ensures Ahead() == r.unread && err.None?
    {
      this.r := r;
      mem := new byte[0];
      len := 0;
      d := new DecodeState();
      scan := new Scanner();
      err := None;
      new;
      Repr := {this, r, mem, d, d.scan, scan};
    }

    /** The scanner has read the first `n` bytes ahead, and has found neither an end nor an error there. */
    ghost predicate Scanned(s: bytes, n: nat, base: int)
      reads scan
      requires n <= |s|
    {
      && scan.consumed == base + n && scan.err.None?
      && Diagnosis(INIT, s, base, true) == Diagnosis(Run(INIT, s[..n]), s[n..], base + n, true)
      && scan.Valid() && scan.Ready() && scan.Tracking()
      && scan.Conf() == Run(INIT, s[..n]) && !scan.endTop && !scan.step.Dead?
      && FirstCut(INIT, s, r.breaks) == CutAfter(n, FirstCut(Run(INIT, s[..n]), s[n..], r.breaks))
    }

    /** A reset scanner has read nothing. */
    lemma ScanStart(s: bytes)
      requires scan.Valid() && scan.Ready() && scan.Conf() == INIT && scan.err.None?
      ensures Scanned(s, 0, scan.consumed)
    {
      hide Diagnosis, FirstCut, Trans;
      assert s[..0] == [] && s[0..] == s;
      CutAfterNone(FirstCut(INIT, s, r.breaks));
    }

    /** Scans one byte; a value may have ended before it or with it. */
    method LookAt(c: byte, ghost s: bytes, ghost pos: nat, ghost base: int) returns (end: Option<nat>)
      requires scan != d.scan && pos < |s| && c == s[pos] && Scanned(s, pos, base) && err.None?
      modifies scan, this`err
      ensures end.Some? ==> end.value <= 1 && err.None? && FirstCut(INIT, s, r.breaks) == Some(pos + end.value)
      ensures end.Some? ==> scan.consumed == base + pos + 1 && (end.value == 0 <==> LooksAhead(s, pos + end.value))
      ensures err.Some? ==> end.None? && FirstCut(INIT, s, r.breaks).None? && Stops(err.value, s, r.breaks, base)
      ensures end.None? && err.None? ==> Scanned(s, pos + 1, base)
    {
      hide Trans, Fits, Run, FirstCut, CutAfter, IsSpaces, Diagnosis;
      ghost var q := scan.Conf();
      LookFacts(s, pos, base, r.breaks);
      end := None;
      scan.consumed := scan.consumed + 1;
      var v := scan.Feed(c);
      if v == End {
        end := Some(0);
      } else if v == EndObject || v == EndArray {
        // The end of a number shows one byte late; that of an array or object is provoked by an invented space.
        var over := Provoke();
        if over {
          CutAtTop(scan.Conf(), s[pos + 1..], r.breaks);
          CutAfterStep(pos + 1, None);
          end := Some(1);
        }
      } else if v == Failed {
        err := Some(Malformed(scan.err));
      }
    }

    /** After a closing byte, an invented space tells whether the top-level value is over, and changes nothing. */
    method Provoke() returns (over: bool)
      requires scan.Valid() && scan.Ready() && scan.err.None? && exists stack :: scan.Conf() == Ended(stack)
      modifies scan
      ensures scan.Valid() && scan.Ready() && scan.err.None? && scan.Conf() == old(scan.Conf())
      ensures scan.consumed == old(scan.consumed) && (over <==> scan.endTop) && (over <==> scan.Conf() == Ended([]))
      ensures !scan.step.Dead?
    {
      hide Trans, Fits;
      InventedSpace(scan.Conf());
      var w := scan.Feed(SPACE);
      over := w == End;
    }

    /** Looks in the buffer, from `scanp` on, for the end of a value. */
    method Look(scanp: nat, ghost base: int) returns (pos: nat, done: bool)
      requires Valid() && scanp <= len && err.None?
      requires Scanned(Ahead(), scanp, base)
      modifies scan, this`err
      ensures Valid() && pos <= len
      ensures done ==> err.None? && FirstCut(INIT, Ahead(), r.breaks) == Some(pos)
      ensures done ==> scan.consumed == base + pos + if LooksAhead(Ahead(), pos) then 1 else 0
      ensures err.Some? ==>
        !done && FirstCut(INIT, Ahead(), r.breaks).None? && Stops(err.value, Ahead(), r.breaks, base)
      ensures !done && err.None? ==> pos == len && Scanned(Ahead(), len, base)
    {
      hide FirstCut, CutAfter, Stops, Run, Scanned, IsSpaces, LooksAhead;
      ghost var s := Ahead();
      pos, done := scanp, false;
      while pos < len
        invariant Valid() && pos <= len && err.None? && Scanned(s, pos, base)
      {
        assert mem[pos] == s[pos];
        var end := LookAt(mem[pos], s, pos, base);
        if end.Some? {
          return pos + end.value, true;
        } else if err.Some? {
          return;
        }
        pos := pos + 1;
      }
    }

    /** Makes room for at least 512 more bytes. */
    method Grow()
      requires Valid()
      modifies this`mem, this`Repr
      ensures Valid() && fresh(Repr - old(Repr))
      ensures mem.Length >= len + 512 && Buf() == old(Buf())
    {
      if mem.Length - len < 512 {
        var newBuf := new byte[2 * mem.Length + 512];
        Copy(mem, newBuf, len);
        mem := newBuf;
        Repr := {this, r, mem, d, d.scan, scan};
      }
    }

    /** `readValue`: reads a value into the buffer and returns its length. */
    method ReadValue() returns (n: nat, e: Option<StreamError>)
      requires Valid() && err.None?
      modifies Repr
      ensures Valid() && fresh(Repr - old(Repr)) && Ahead() == old(Ahead())
      ensures e == err
      ensures e.None? ==> n <= len && FirstCut(INIT, Ahead(), r.breaks) == Some(n)
      ensures e.None? ==> scan.consumed == old(scan.consumed) + n + if LooksAhead(Ahead(), n) then 1 else 0
      ensures e.Some? ==>
        FirstCut(INIT, Ahead(), r.breaks).None? && Stops(e.value, Ahead(), r.breaks, old(scan.consumed))
    {
      hide FirstCut, CutAfter, Stops, Run, Scanned, IsSpaces, Trans, LooksAhead;
      ghost var s := Ahead();
      scan.Reset();
      ghost var base := scan.consumed;
      ScanStart(s);
      var scanp: nat := 0;
      var last: Option<StreamError> := None;
      while true
        invariant Valid() && fresh(Repr - old(Repr)) && Ahead() == s && err.None?
        invariant scanp <= len && Scanned(s, scanp, base)
        invariant last.Some? ==> r.unread == [] && last.value == if r.breaks then Broken else EOF
        decreases |r.plan| + |r.unread| + if last.Some? then 0 else 1
      {
        // Look in the buffer for a new value.
        var pos, done := Look(scanp, base);
        if done {
          return pos, None;
        }
        if err.Some? {
          return 0, err;
        }
        scanp := len;
        // An error of the last read counts only now that the buffer is scanned.
        if last.Some? {
          assert mem[..len] == s;
          if last == Some(EOF) {
            n, e := AtEof(s, base);
          } else {
            BrokenOff(s, base);
            err := last;
            n, e := 0, err;
          }
          return;
        }
        last := Fill();
      }
    }

    /** Reads more of the stream into the buffer. */
    method Fill() returns (last: Option<StreamError>)
      requires Valid()
      modifies this`mem, this`len, this`Repr, mem, r
      ensures Valid() && fresh(Repr - old(Repr)) && Ahead() == old(Ahead()) && len >= old(len)
      ensures last.Some? ==> r.unread == [] && last.value == if r.breaks then Broken else EOF
      ensures |r.plan| + |r.unread| + (if last.Some? then 0 else 1) < |old(r.plan)| + |old(r.unread)| + 1
    {
      Grow();
      label Reading:
      var got: nat;
      got, last := r.Read(mem, len);
      assert mem[..len + got] == old@Reading(mem[..len]) + old@Reading(r.unread)[..got];
      Regrouped(old@Reading(mem[..len]), old@Reading(r.unread), got);
      len := len + got;
    }

    /** The stream broke off inside a value, or before one. */
    lemma BrokenOff(s: bytes, base: int)
      requires Scanned(s, |s|, base) && r.breaks
      ensures FirstCut(INIT, s, true).None? && Stops(Broken, s, true, base)
    {
      hide Trans, Run, FirstCut, Fits, Diagnosis;
      assert s[..|s|] == s && s[|s|..] == [];
      CutNothing(scan.Conf(), true);
    }

    /** The stream has ended, and the buffer holds all that is left of it. */
    method AtEof(ghost s: bytes, ghost base: int) returns (n: nat, e: Option<StreamError>)
      requires Valid() && err.None? && Buf() == s && len == |s| && Scanned(s, len, base) && !r.breaks
      modifies scan, this`err
      ensures Valid() && e == err
      ensures e.None? ==> n == len && FirstCut(INIT, s, r.breaks) == Some(n)
      ensures e.None? ==> scan.consumed == base + n && !LooksAhead(s, n)
      ensures e.Some? ==> FirstCut(INIT, s, r.breaks).None? && Stops(e.value, s, r.breaks, base)
    {
      hide Trans, Run, FirstCut, IsSpaces, Fits, Diagnosis;
      ghost var q := scan.Conf();
      assert s[..len] == s && s[len..] == [];
      SpaceStep(q);
      EndRetractsNothing(q, SPACE);
      CutNothing(q, r.breaks);
      var v := scan.Feed(SPACE);
      if v == End {
        return len, None;
      }
      var x := NonSpace(Buf());
      err := Some(if x then UnexpectedEOF else EOF);
      return 0, err;
    }

    /** `Decode`: the next value of the stream, which is taken off it even if it does not decode. */
    method Decode() returns (res: Result<Json, DecodeFailure>)
      requires Valid()
      modifies Repr
      ensures Valid() && fresh(Repr - old(Repr))
      ensures old(err).Some? ==> res == Err(Stream(old(err).value)) && err == old(err) && Ahead() == old(Ahead())
      ensures old(err).None? ==>
        Delivers(Feed(old(Ahead()), old(scan.consumed)), res, Feed(Ahead(), scan.consumed), err, r.breaks)
    {
      hide Cut, FirstCut, Stops, IsGap, WfDocument, Yield, Meaning, IsSpaces, LooksAhead;
      if err.Some? {
        return Err(Stream(err.value));
      }
      ghost var s := Ahead();
      var n, e := ReadValue();
      if e.Some? {
        return Err(Stream(e.value));
      }
      FirstCutIsCut(INIT, s, r.breaks);
      CutText(s, n);
      assert s[..n] == mem[..n];
      var item := d.Decode(mem[..n]);
      res := match item case Ok(v) => Ok(v) case Err(x) => Err(Item(x));
      Slid(s, mem[..len], r.unread, n);
      Slide(n);
    }

    /** Slides the rest of the buffer down, in place. */
    method Slide(n: nat)
      requires Valid() && n <= len
      modifies this`len, mem
      ensures Valid() && Buf() == old(Buf()[n..])
    {
      var rest := len - n;
      for i := 0 to rest
        modifies mem
        invariant forall j | 0 <= j < i :: mem[j] == old(mem[n + j])
        invariant forall j | i <= j < mem.Length :: mem[j] == old(mem[j])
      {
        mem[i] := mem[n + i];
      }
      len := rest;
    }
  }

  datatype DecodeFailure = Stream(e: StreamError) | Item(x: DecodeError)

  /** What is ahead of the decoder, and how many bytes its scanner has counted. */
  datatype Feed = Feed(s: bytes, count: int)

  /** One call of `Decode` on the bytes of `f`: it returns the first value that can be cut off and leaves the rest. */
  ghost predicate Delivers(f: Feed, res: Result<Json, DecodeFailure>, g: Feed, err: Option<StreamError>, breaks: bool) {
    match FirstCut(INIT, f.s, breaks)
    case None => g.s == f.s && err.Some? && Stops(err.value, f.s, breaks, f.count) && res == Err(Stream(err.value))
    case Some(n) =>
      && g.s == f.s[n..] && err.None? && Means(f.s[..n], res)
      && g.count == f.count + n + if LooksAhead(f.s, n) then 1 else 0
  }

  /** A text decodes to its meaning; anything else that can be cut off puts the decoder out of phase. */
  ghost predicate Means(text: bytes, res: Result<Json, DecodeFailure>) {
    && (forall d: Document | WfDocument(d) && Yield(d) == text :: res == Ok(Meaning(d.value)))
    && (!IsJson(text) ==> res == Err(Item(Phase)))
  }

  /** A text decodes to what it denotes, and to nothing else. */
  lemma MeansDenoted(text: bytes, res: Result<Json, DecodeFailure>)
    ensures Means(text, res) <==> if IsJson(text) then res.Ok? && Denotes(text, res.value) else res == Err(Item(Phase))
  {
    hide WfDocument, Yield, Meaning, Denotes;
    OneMeaning(text);
    if IsJson(text) {
      var d: Document :| WfDocument(d) && Yield(d) == text;
      assert forall j :: Denotes(text, j) <==> j == Meaning(d.value);
    }
  }

  method Copy(from: array<byte>, to: array<byte>, n: nat)
    requires from != to && n <= from.Length && n <= to.Length
    modifies to
    ensures to[..n] == from[..n]
  {
    for i := 0 to n
      invariant to[..i] == from[..i]
    {
      to[i] := from[i];
    }
  }

  method NonSpace(b: bytes) returns (x: bool)
    ensures x <==> !IsSpaces(b)
  {
    for i := 0 to |b|
      invariant forall j | 0 <= j < i :: IsSpace(b[j])
    {
      if !IsSpace(b[i]) {
        return true;
      }
    }
    return false;
  }

  lemma Regrouped(a: bytes, b: bytes, n: nat)
    requires n <= |b|
    ensures (a + b[..n]) + b[n..] == a + b
  {
  }

  lemma Slid(s: bytes, buf: bytes, unread: bytes, n: nat)
    requires s == buf + unread && n <= |buf|
    ensures s[n..] == buf[n..] + unread && s[..n] == buf[..n]
  {
  }

  lemma CutNothing(q: Conf, breaks: bool)
    ensures FirstCut(q, [], breaks)
            == if (if breaks then q.endTop && !q.step.Dead? else EofOk(q)) then Some(0) else None
  {
  }

  /** At the end of the stream, a space decides like the scanner's own end. */
  lemma SpaceStep(q: Conf)
    requires Fits(q) && !q.endTop && !q.step.Dead?
    ensures Trans(q, SPACE).op.End? <==> EofOk(q)
  {
    hide Trans;
    if InLiteral(q.step) {
      TransInLiteral(q, SPACE);
      SpaceInLiteral(q);
    } else {
      SpaceElsewhere(q);
    }
  }

  lemma SpaceInLiteral(q: Conf)
    requires InLiteral(q.step) && !q.endTop
    ensures LiteralOut(q, SPACE).op.End? <==> LiteralOut(q, SPACE).next.endTop
  {
    hide Lex;
  }

  lemma SpaceElsewhere(q: Conf)
    requires Fits(q) && !InLiteral(q.step) && !q.endTop
    ensures Trans(q, SPACE).op.End? <==> Trans(q, SPACE).next.endTop
  {
  }

  /** One more byte is scanned. */
  lemma LookStep(s: bytes, n: nat, breaks: bool)
    requires n < |s|
    requires FirstCut(INIT, s, breaks) == CutAfter(n, FirstCut(Run(INIT, s[..n]), s[n..], breaks))
    ensures var out := Trans(Run(INIT, s[..n]), s[n]);
      && Run(INIT, s[..n + 1]) == out.next
      && (out.op.End? ==> FirstCut(INIT, s, breaks) == Some(n))
      && (out.op.Failed? ==> FirstCut(INIT, s, breaks) == None)
      && (!out.op.End? && !out.op.Failed? ==>
            FirstCut(INIT, s, breaks) == CutAfter(n + 1, FirstCut(out.next, s[n + 1..], breaks)))
  {
    hide Trans, Run, Trace, FirstCut, CutAfter, Fits;
    RunAt(INIT, s, n);
    var q := Run(INIT, s[..n]);
    var rest := s[n..];
    assert rest != [] && rest[0] == s[n] && rest[1..] == s[n + 1..];
    FirstCutStep(q, rest, breaks);
    CutAfterStep(n, FirstCut(Trans(q, s[n]).next, s[n + 1..], breaks));
  }

  lemma FirstCutStep(q: Conf, s: bytes, breaks: bool)
    requires s != []
    ensures var out := Trans(q, s[0]);
      FirstCut(q, s, breaks)
      == if out.op.End? then Some(0) else if out.op.Failed? then None
         else CutAfter(1, FirstCut(out.next, s[1..], breaks))
  {
    hide Trans;
  }

  /** No comment ends a value. */
  lemma EndRetractsNothing(q: Conf, c: byte)
    ensures var out := Trans(q, c); out.op.End? ==> Retracts(q.step, out) == 0
  {
  }

  lemma LookFails(s: bytes, n: nat)
    requires n < |s|
    ensures Trans(Run(INIT, s[..n]), s[n]).op.Failed? ==> Run(INIT, s).step.Dead?
  {
    hide Trans;
    RunAt(INIT, s, n);
    StartFits();
    RunFits(INIT, s[..n]);
    FitsStep(Run(INIT, s[..n]), s[n]);
    if Trans(Run(INIT, s[..n]), s[n]).op.Failed? {
      DeadPrefix(INIT, s, n + 1);
    }
  }

  /** All that is known of the byte that is scanned next. */
  lemma LookFacts(s: bytes, n: nat, count: int, breaks: bool)
    requires n < |s| && Fits(Run(INIT, s[..n])) && !Run(INIT, s[..n]).endTop && !Run(INIT, s[..n]).step.Dead?
    requires FirstCut(INIT, s, breaks) == CutAfter(n, FirstCut(Run(INIT, s[..n]), s[n..], breaks))
    requires Diagnosis(INIT, s, count, true) == Diagnosis(Run(INIT, s[..n]), s[n..], count + n, true)
    ensures var out := Trans(Run(INIT, s[..n]), s[n]);
      && Run(INIT, s[..n + 1]) == out.next
      && (out.op.End? ==> FirstCut(INIT, s, breaks) == Some(n))
      && (out.op.Failed? ==> FirstCut(INIT, s, breaks) == None && Run(INIT, s).step.Dead?)
      && (!out.op.End? && !out.op.Failed? ==>
            FirstCut(INIT, s, breaks) == CutAfter(n + 1, FirstCut(out.next, s[n + 1..], breaks)))
      && Diagnosis(INIT, s, count, true)
         == (if out.complaint.Some? then Some(Mistake(Run(INIT, s[..n]), out, count + n + 1))
             else Diagnosis(out.next, s[n + 1..], count + n + 1, true))
      && Onward(out) && (out.op.End? ==> Retracts(Run(INIT, s[..n]).step, out) == 0)
  {
    hide Trans, Run, FirstCut, CutAfter, Fits, Diagnosis, Onward;
    var q := Run(INIT, s[..n]);
    assert s[n..][0] == s[n] && s[n..][1..] == s[n + 1..];
    LookStep(s, n, breaks);
    CheckStep(q, s[n..], count + n, true);
    EndRetractsNothing(q, s[n]);
    LookFails(s, n);
    OnwardStep(q, s[n]);
  }

  /** Only a closing byte or an end finishes the top-level value, and only an end can come with an error. */
  ghost predicate Onward(out: Out) {
    && (out.next.endTop ==> out.op.End? || out.op.EndObject? || out.op.EndArray?)
    && (out.next.step.Dead? ==> out.op.End? || out.op.Failed?)
    && (out.op.EndObject? || out.op.EndArray? ==> exists stack :: out.next == Ended(stack))
  }

  lemma OnwardStep(q: Conf, c: byte)
    requires Fits(q) && !q.endTop && !q.step.Dead?
    ensures Onward(Trans(q, c))
  {
    hide Trans, Onward;
    match q.step
    case BeginValue => OnwardBegin(q, c);
    case BeginValueOrEmpty => OnwardBegin(q, c);
    case BeginString => OnwardKey(q, c);
    case BeginStringOrEmpty => OnwardKey(q, c);
    case EndValue => OnwardEnd(q, c);
    case _ =>
      if InLiteral(q.step) {
        TransInLiteral(q, c);
        OnwardLiteral(q, c);
      } else {
        OnwardComment(q, c);
      }
  }

  lemma EndingOnward(q: Conf, c: byte)
    requires !q.endTop
    ensures Onward(EndValueOut(q, c)) && Onward(Pop(q.(stack := q.stack + [ObjectKey]), EndObject))
  {
    if q.stack != [] {
      assert Pop(q, EndArray).next == Ended(q.stack[..|q.stack| - 1]);
    }
    assert Pop(q.(stack := q.stack + [ObjectKey]), EndObject).next == Ended((q.stack + [ObjectKey])[..|q.stack|]);
  }

  lemma OnwardBegin(q: Conf, c: byte)
    requires !q.endTop && (q.step.BeginValue? || q.step.BeginValueOrEmpty?)
    ensures Onward(Trans(q, c))
  {
    EndingOnward(q, c);
  }

  lemma OnwardKey(q: Conf, c: byte)
    requires Fits(q) && !q.endTop && (q.step.BeginString? || q.step.BeginStringOrEmpty?)
    ensures Onward(Trans(q, c))
  {
    var n := |q.stack| - 1;
    assert q.stack == q.stack[..n] + [ObjectKey];
    EndingOnward(q.(stack := q.stack[..n]), c);
  }

  lemma OnwardEnd(q: Conf, c: byte)
    requires !q.endTop && q.step.EndValue?
    ensures Onward(Trans(q, c))
  {
    EndingOnward(q, c);
  }

  lemma OnwardLiteral(q: Conf, c: byte)
    requires !q.endTop && InLiteral(q.step)
    ensures Onward(LiteralOut(q, c))
  {
    hide Lex, EndValueOut;
    EndingOnward(q, c);
    LexStays(q.step, c);
  }

  lemma OnwardComment(q: Conf, c: byte)
    requires Fits(q) && !q.endTop && !InLiteral(q.step) && !q.step.EndValue? && !q.step.Dead?
    requires !q.step.BeginValue? && !q.step.BeginValueOrEmpty?
    requires !q.step.BeginString? && !q.step.BeginStringOrEmpty?
    ensures Onward(Trans(q, c))
  {
  }

  /** After a closing byte, a space changes nothing; it returns `End` at top level only. */
  lemma InventedSpace(q: Conf)
    requires exists stack :: q == Ended(stack)
    ensures Trans(q, SPACE).next == q && Trans(q, SPACE).complaint.None?
    ensures Trans(q, SPACE).op.End? <==> q.endTop
    ensures q.endTop <==> q == Ended([])
    ensures !q.step.Dead? && !q.step.Redo?
  {
  }

  lemma CutAtTop(q: Conf, s: bytes, breaks: bool)
    requires q == Ended([])
    ensures FirstCut(q, s, breaks) == Some(0)
  {
  }

  /** A history of `Decode` calls that all returned a value or failed to decode one: `feeds` is what was ahead. */
  ghost predicate Calls(feeds: seq<Feed>, results: seq<Result<Json, DecodeFailure>>, breaks: bool) {
    && |feeds| == |results| + 1
    && forall i | 0 <= i < |results| :: Delivers(feeds[i], results[i], feeds[i + 1], None, breaks)
  }

  /** How many of the first `k` pieces end only in the byte behind them, which is scanned again for the next. */
  function LookAheads(s: bytes, k: nat): nat
    decreases k
  {
    match Cut(INIT, s)
    case None => 0
    case Some(n) => if k == 0 then 0 else (if LooksAhead(s, n) then 1 else 0) + LookAheads(s[n..], k - 1)
  }

  /**
     However the stream is chunked, the calls return the pieces that `nextValue` cuts from the whole stream, one
     by one, and every byte is returned or still ahead. When the next call fails, all pieces have been returned,
     except that a stream that breaks off may leave a last piece that only its end would have finished. The count
     from which errors are reported is ahead of the bytes returned by one for every look-ahead.
   */
  lemma {:induction false} CallsReturnPieces(feeds: seq<Feed>, results: seq<Result<Json, DecodeFailure>>, breaks: bool)
    requires Calls(feeds, results, breaks)
    ensures var pieces := Pieces(feeds[0].s);
      var k := |results|;
      && k <= |pieces|
      && (forall i | 0 <= i < k :: Means(pieces[i], results[i]))
      && Flat(pieces[..k]) + feeds[k].s == feeds[0].s
      && pieces[k..] == Pieces(feeds[k].s)
      && feeds[k].count == feeds[0].count + |Flat(pieces[..k])| + LookAheads(feeds[0].s, k)
      && (FirstCut(INIT, feeds[k].s, breaks).None? ==>
            || (k == |pieces| && feeds[k].s == Remainder(feeds[0].s))
            || (breaks && pieces[k..] == [feeds[k].s]))
    decreases |results|
  {
    hide Cut, FirstCut, Means, Flat, Pieces, Remainder, LooksAhead;
    var s := feeds[0].s;
    var pieces := Pieces(s);
    if results == [] {
      assert pieces[..0] == [] && pieces[0..] == pieces;
      NothingFlat(s);
      if FirstCut(INIT, s, breaks).None? {
        LastPiece(s, breaks);
      }
    } else {
      assert Delivers(feeds[0], results[0], feeds[1], None, breaks);
      FirstCutIsCut(INIT, s, breaks);
      var n := Cut(INIT, s).value;
      assert forall i | 0 <= i < |results[1..]| ::
        Delivers(feeds[1..][i], results[1..][i], feeds[1..][i + 1], None, breaks) by {
        assert forall i | 0 <= i < |results[1..]| :: results[1..][i] == results[i + 1] && feeds[1..][i] == feeds[i + 1];
      }
      CallsReturnPieces(feeds[1..], results[1..], breaks);
      PiecesStep(s, n, |results|);
      Assoc(s[..n], Flat(Pieces(s[n..])[..|results| - 1]), feeds[|results|].s);
      TakeDrop(s, n);
    }
  }

  /** A stream that starts with texts, each parted from what follows, decodes to their meanings in order. */
  lemma StreamOfTexts(ds: seq<Document>, ys: seq<bytes>, r: bytes,
                      feeds: seq<Feed>, results: seq<Result<Json, DecodeFailure>>, breaks: bool)
    requires |ys| == |ds| && forall i | 0 <= i < |ds| :: WfDocument(ds[i]) && Yield(ds[i]) == ys[i]
    requires AllParted(ys, r) && Calls(feeds, results, breaks) && feeds[0].s == Flat(ys) + r
    ensures forall i | 0 <= i < |results| && i < |ds| :: results[i] == Ok(Meaning(ds[i].value))
    ensures |results| == |ds| ==> feeds[|results|].s == r
  {
    hide Cut, FirstCut, Flat, Pieces, Remainder, AllParted, WfDocument, Yield, Delivers;
    var k, pieces := |results|, Pieces(feeds[0].s);
    assert forall y | y in ys :: IsJson(y);
    PiecesOfTexts(ys, r);
    CallsReturnPieces(feeds, results, breaks);
    assert forall i | 0 <= i < |ys| :: pieces[i] == ys[i];
    assert forall i | 0 <= i < k && i < |ys| :: Means(ys[i], results[i]);
    if k == |ys| {
      assert pieces[..k] == ys;
      assert feeds[k].s == (Flat(ys) + feeds[k].s)[|Flat(ys)|..] && r == (Flat(ys) + r)[|Flat(ys)|..];
    }
  }

  lemma NothingFlat(s: bytes)
    ensures Flat([]) + s == s && Flat([]) == [] && LookAheads(s, 0) == 0
  {
  }

  /** What is left when nothing more can be cut from the stream. */
  lemma LastPiece(s: bytes, breaks: bool)
    requires FirstCut(INIT, s, breaks).None?
    ensures (Pieces(s) == [] && Remainder(s) == s) || (breaks && Pieces(s) == [s])
  {
    FirstCutIsCut(INIT, s, breaks);
    if Cut(INIT, s).Some? {
      assert s[..|s|] == s && s[|s|..] == [];
      assert Cut(INIT, []).None?;
      assert Pieces([]) == [];
    }
  }

  lemma PiecesStep(s: bytes, n: nat, k: nat)
    requires Cut(INIT, s) == Some(n) && 0 < k <= |Pieces(s[n..])| + 1
    ensures Pieces(s) == [s[..n]] + Pieces(s[n..]) && Remainder(s) == Remainder(s[n..])
    ensures Pieces(s)[k..] == Pieces(s[n..])[k - 1..]
    ensures Flat(Pieces(s)[..k]) == s[..n] + Flat(Pieces(s[n..])[..k - 1])
  {
    hide Cut;
    var front := Pieces(s)[..k];
    assert front[0] == s[..n] && front[1..] == Pieces(s[n..])[..k - 1];
  }
}
