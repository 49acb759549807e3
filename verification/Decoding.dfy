/** The recursive decoder into generic values (common/json/decode.go), which follows the scanner's opcodes. */
module Decoding {
  import opened Bytes
  import opened Scanning
  import opened ScannerState
  import opened Grammar
  import opened Recognition
  import opened Rejection
  import opened Unambiguous
  import opened Quote
  import opened QuoteLoops
  import opened Trees
  import opened DecodeText
  import opened Meanings

  datatype DecodeError = Syntax(e: Option<SyntaxError>) | Phase

  type Decoded = Result<Json, DecodeError>

  class DecodeState {
    var data: bytes
    var off: int  // read offset in data
    const scan: Scanner

    ghost predicate Valid()
      reads this, scan
    {
      scan.Valid() && 0 <= off <= |data| + 1
    }

    /** Nothing was undone, `r` is unread, and the scanner stands in `q`. */
    ghost predicate Fresh(q: Conf, r: bytes)
      reads this, scan
    {
      && Valid() && off <= |data| && data[off..] == r
      && scan.Ready() && scan.Conf() == q && scan.err.None?
    }

    /**
     The scanner stands logically in `p` before `r`, which it can read: it is there (up to a number that ends
     here), or it has already looked at the next byte, or the end, and undone that.
     */
    ghost predicate At(p: Conf, r: bytes)
      reads this, scan
    {
      && Valid() && off <= |data| && data[off..] == r
      && scan.err.None? && !Dies(p, r)
      && if scan.redo
         then if r == [] then p == Ended([])
              else scan.redoCode == Trans(p, r[0]).op && scan.Conf() == Trans(p, r[0]).next
         else scan.Ready() && (scan.Conf() == p || (Settle(scan.Conf()) == p && Follows(p, r)))
    }

    constructor ()
      ensures Valid() && fresh(scan) && scan.consumed == 0
    {
      data, off := [], 0;
      scan := new Scanner();
    }

    /** The call `d.scan.step` of `scanWhile`, with the byte it takes. */
    method ScanByte(ghost p: Conf, ghost r: bytes) returns (op: Op)
      requires At(p, r) && r != []
      modifies this`off, scan
      ensures data == old(data) && off == old(off) + 1
      ensures op == Trans(p, r[0]).op && Fresh(Trans(p, r[0]).next, r[1..])
      ensures !Dies(Trans(p, r[0]).next, r[1..])
    {
      hide Trans, Run, Fits;
      StepAlive(p, r);
      SettledStep(scan.Conf(), p, r);
      var c := data[off];
      assert c == r[0] && data[off + 1..] == r[1..];
      off := off + 1;
      op := scan.Feed(c);
    }

    /** `scanWhile`: takes the bytes of `s`, which return `op`, and one byte more, or the end of the data. */
    method ScanWhile(op: Op, ghost p: Conf, ghost s: bytes, ghost r: bytes) returns (newOp: Op)
      requires At(p, s + r)
      requires forall i | 0 <= i < |s| :: Trace(p, s)[i].op == op
      requires r != [] ==> Trans(Run(p, s), r[0]).op != op
      requires r == [] ==> !op.End? && !op.Failed? && (s == [] ==> !scan.redo && scan.Conf() == p)
      modifies this`off, scan
      ensures data == old(data) && !Dies(Run(p, s), r)
      ensures r != [] ==> newOp == Trans(Run(p, s), r[0]).op && off == old(off) + |s| + 1
                          && Fresh(Trans(Run(p, s), r[0]).next, r[1..])
                          && !Dies(Trans(Run(p, s), r[0]).next, r[1..]) && data[off - 1..] == r
      ensures r == [] ==> newOp == (if EofOk(Run(p, s)) then End else Failed)
                          && off == |data| + 1 && Valid() && scan.Ready() && (newOp == End ==> scan.err.None?)
    {
      hide Trans, Run, Trace, Fits;
      ghost var t := s + r;
      ghost var n := 0;
      RunNothing(p, t);
      while true
        invariant 0 <= n <= |s| && data == old(data) && off == old(off) + n
        invariant n == 0 ==> At(p, t) && (r == [] && s == [] ==> !scan.redo && scan.Conf() == p)
        invariant n > 0 ==> Fresh(Run(p, t[..n]), t[n..])
        invariant !Dies(Run(p, t[..n]), t[n..])
        decreases |t| - n
      {
        TraceAt(p, s, r, n);
        if off >= |data| {
          assert t[..n] == s;
          newOp := scan.Eof();
          off := |data| + 1;
          break;
        }
        newOp := ScanByte(Run(p, t[..n]), t[n..]);
        if newOp != op {
          break;
        }
        n := n + 1;
      }
    }

    /** `d.off--; d.scan.undo(op)`: the byte before `off`, or the end, will be seen again. */
    method BackUp(op: Op, ghost p: Conf, ghost r: bytes)
      requires !Dies(p, r)
      requires r != [] ==> 1 <= off && Fresh(Trans(p, r[0]).next, r[1..]) && data[off - 1..] == r
                           && op == Trans(p, r[0]).op
      requires r == [] ==> p == Ended([]) && off == |data| + 1 && Valid() && scan.Ready() && scan.err.None?
      modifies this`off, scan
      ensures data == old(data) && off == old(off) - 1 && At(p, r)
    {
      off := off - 1;
      scan.Undo(op);
    }

    /** `literalInterface`: the first byte of the literal has been read. */
    method LiteralInterface(ghost p: Conf, ghost text: bytes, ghost r: bytes) returns (res: Result<Json, DecodeError>)
      requires AtValueStart(p) && IsLiteral(text) && text != [] && AfterOk(p.stack, r)
      requires Fresh(Trans(p, text[0]).next, text[1..] + r) && !Dies(Trans(p, text[0]).next, text[1..] + r)
      requires 1 <= off && data[off - 1..] == text + r
      modifies this`off, scan
      ensures data == old(data)
      ensures res == Ok(MeaningLiteral(text)) && At(Ended(p.stack), r)
    {
      hide Trans, Run, Trace, Fits, IsLiteral;
      var start := off - 1;
      LiteralRest(p, text, r);
      var op := ScanWhile(Continue, Trans(p, text[0]).next, text[1..], r);
      BackUp(op, Ended(p.stack), r);
      var item := data[start..off];
      assert item == text;
      res := LiteralValue(item);
    }

    lemma FreshIsAt(p: Conf, r: bytes)
      requires Fresh(p, r) && !Dies(p, r)
      ensures At(p, r)
    {
    }

    /**
     `valueInterface`: a gap and then the value `w`. Without a value the text is comments and nothing else, which
     the stream decoder can cut out.
     */
    method ValueInterface(ghost p: Conf, ghost g: bytes, ghost w: Option<Value>, ghost r: bytes) returns (res: Decoded)
      requires IsGap(g) && AtValueStart(p) && At(p, g + (Source(w) + r))
      requires w.Some? ==> WfValue(w.value) && AfterOk(p.stack, r)
      requires w.None? ==> r == [] && p == INIT && !scan.redo && scan.Conf() == p
      modifies this`off, scan
      ensures data == old(data)
      ensures w.Some? ==> res == Ok(Meaning(w.value)) && At(Ended(p.stack), r)
      ensures w.None? ==> res == Err(Phase)
      decreases |Source(w)|, 1
    {
      hide Trans, Run, Trace, Fits, WfValue, IsGap, Dies, AtValueStart, YieldValue, AfterOk;
      GapRuns(p, g);
      ghost var q := GapEnd(p, g);
      StartsAgain(p, g);
      if w.Some? {
        ValueFirst(q, w.value, r);
      } else {
        NothingThere(q);
        Unit(g);
      }
      var op := ScanWhile(SkipSpace, p, g, Source(w) + r);
      if op == BeginArray || op == BeginObject || op == BeginLiteral {
        res := CompositeInterface(op, q, w.value, r);
      } else {
        res := Err(Phase);
      }
    }

    /** The first byte of the value `v` has been read, and returned `op`. */
    method CompositeInterface(op: Op, ghost q: Conf, ghost v: Value, ghost r: bytes) returns (res: Decoded)
      requires WfValue(v) && AtValueStart(q) && AfterOk(q.stack, r) && op == Opening(v)
      requires YieldValue(v) != [] && (YieldValue(v) + r)[0] == YieldValue(v)[0]
      requires var p := Trans(q, YieldValue(v)[0]).next;
        var rest := (YieldValue(v) + r)[1..];
        Fresh(p, rest) && !Dies(p, rest)
      requires 1 <= off && data[off - 1..] == YieldValue(v) + r
      modifies this`off, scan
      ensures data == old(data)
      ensures res == Ok(Meaning(v)) && At(Ended(q.stack), r)
      decreases |YieldValue(v)|, 0
    {
      hide Trans, Run, Trace, Fits, WfValue, IsGap, Dies, AtValueStart, IsLiteral, Meaning, TodoWf, MemberTodoWf,
        AtKeyStart, YieldValue, TodoText, MemberTodoText, TodoMeaning, MemberTodoMeaning, AfterOk;
      FirstIsStart(q.stack);
      ValueFirst(q, v, r);
      ValueKinds(v);
      if op == BeginArray {
        res := ArrayInterface(q.stack, ArrayTodo(v), r);
        FreshIsAt(Ended(q.stack), r);
      } else if op == BeginObject {
        res := ObjectInterface(q.stack, ObjectTodo(v), r);
        FreshIsAt(Ended(q.stack), r);
      } else {
        res := LiteralInterface(q, v.text, r);
      }
    }

    /** The rest `t` of an array is ahead. */
    ghost predicate InArray(outer: seq<ParseState>, q: Conf, t: Todo, r: bytes)
      reads this, scan
    {
      && AtValueStart(q) && q.stack == outer + [ArrayValue] && TodoWf(q, t)
      && Fresh(q, TodoText(t) + ([RBRACKET] + r)) && !Dies(q, TodoText(t) + ([RBRACKET] + r))
    }

    /** The value in context `outer` is over, and `r` is ahead. */
    ghost predicate Past(outer: seq<ParseState>, r: bytes)
      reads this, scan
    {
      Fresh(Ended(outer), r) && !Dies(Ended(outer), r)
    }

    /** `arrayInterface`: the opening bracket has been read. */
    method ArrayInterface(ghost outer: seq<ParseState>, ghost t0: Todo, ghost r: bytes) returns (res: Decoded)
      requires InArray(outer, Conf(BeginValueOrEmpty, outer + [ArrayValue], false), t0, r)
      modifies this`off, scan
      ensures data == old(data)
      ensures res == Ok(JArray(TodoMeaning(t0))) && Past(outer, r)
      decreases |TodoText(t0)|, 3
    {
      hide InArray, Past, TodoText, TodoMeaning;
      var items: seq<Json> := [];
      var phase := false;
      ghost var t, q := t0, Conf(BeginValueOrEmpty, outer + [ArrayValue], false);
      while true
        invariant data == old(data) && !phase && InArray(outer, q, t, r)
        invariant items + TodoMeaning(t) == TodoMeaning(t0)
        invariant |TodoText(t)| <= |TodoText(t0)|
        decreases |TodoText(t)|
      {
        // Look ahead for the closing bracket, and give back any other byte.
        var op := LookAhead(outer, q, t, r);
        if op == EndArray {
          ClosedMeans(t);
          assert items + [] == items;
          break;
        }
        ItemsMeans(t);
        ItemMeans(t.es, items);
        op, items := ElementInterface(GapEnd(q, TodoGap(t)), outer, t.es, r, items);
        if op == EndArray {
          break;
        }
        if op != ArrayValueDone {
          phase := true;
          break;
        }
        t, q := AfterComma(t.es), Conf(BeginValue, outer + [ArrayValue], false);
      }
      res := if phase then Err(Phase) else Ok(JArray(items));
    }

    method LookAhead(ghost outer: seq<ParseState>, ghost q: Conf, ghost t: Todo, ghost r: bytes) returns (op: Op)
      requires InArray(outer, q, t, r)
      modifies this`off, scan
      ensures data == old(data)
      ensures op == EndArray <==> t.Close?
      ensures t.Close? ==> Past(outer, r)
      ensures t.Items? ==>
        var p := GapEnd(q, TodoGap(t));
        WfElements(t.es) && AtValueStart(p) && p.stack == outer + [ArrayValue]
        && At(p, TodoRest(t, [RBRACKET] + r))
    {
      hide Trans, Run, Trace, Fits, IsGap, Dies, WfElements;
      TodoSteps(outer, q, t, r);
      op := ScanWhile(SkipSpace, q, TodoGap(t), TodoRest(t, [RBRACKET] + r));
      if op != EndArray {
        BackUp(op, GapEnd(q, TodoGap(t)), TodoRest(t, [RBRACKET] + r));
      }
    }

    /** An element, whose first byte has been seen, and the byte that must be a comma or the closing bracket. */
    method ElementInterface(ghost p: Conf, ghost outer: seq<ParseState>, ghost es: Elements, ghost r: bytes,
                            items: seq<Json>)
      returns (op: Op, v: seq<Json>)
      requires WfElements(es) && AtValueStart(p) && p.stack == outer + [ArrayValue]
      requires At(p, YieldValue(es.e.value) + (es.e.after + Beyond(es, [RBRACKET] + r)))
      modifies this`off, scan
      ensures data == old(data)
      ensures v == items + [Meaning(es.e.value)]
      ensures es.Last? ==> op == EndArray && Past(outer, r)
      ensures !es.Last? ==>
        var t := AfterComma(es);
        && op == ArrayValueDone && InArray(outer, Conf(BeginValue, outer + [ArrayValue], false), t, r)
        && |TodoText(t)| < |YieldElements(es)|
      decreases |YieldElements(es)|, 2
    {
      hide Trans, Run, Trace, Fits, IsGap, Dies, WfElements, WfValue, Meaning, MeaningElements, TodoWf, TodoMeaning,
        AtValueStart, Beyond, YieldValue, YieldElements, AfterOk, TodoText;
      NextIsStart(outer);
      ghost var e := es.e;
      ghost var t := Beyond(es, [RBRACKET] + r);
      ElementSteps(outer, es, r);
      ElementShorter(es);
      ElementParts(es);
      Unit(YieldValue(e.value) + (e.after + t));
      NoGap();
      var item := ValueInterface(p, [], Some(e.value), e.after + t);
      if item.Err? {
        op, v := Failed, items;
      } else {
        v := items + [item.value];
        AfterRuns(outer + [ArrayValue], e.after);
        op := ScanWhile(SkipSpace, Ended(outer + [ArrayValue]), e.after, t);
      }
    }

    /** A key, from its second byte, and its colon. */
    method KeyInterface(ghost outer: seq<ParseState>, ghost ms: Members, ghost close: bytes)
      returns (key: Option<bytes>)
      requires WfMembers(ms) && close != [] && BeforeColon(outer, ms, close)
      modifies this`off, scan
      ensures data == old(data)
      ensures var p := Conf(BeginValue, outer + [ObjectValue], false);
        key == Some(StringValue(ms.m.key))
        && Fresh(p, PastColon(ms, close)) && !Dies(p, PastColon(ms, close))
    {
      hide Trans, Run, Trace, Fits, IsGap, Dies, WfMembers, IsString, Unquoted, IsLiteral, AfterOk, YieldValue,
        PastKey, PastColon, StringValue;
      ghost var p := Conf(BeginString, outer + [ObjectKey], false);
      ghost var q := Ended(outer + [ObjectKey]);
      KeyFirst(p, ms.m.key, PastKey(ms, close));
      KeySteps(outer, ms, close);
      StringIsLiteral(ms.m.key);
      LiteralRest(p, ms.m.key, PastKey(ms, close));
      var start := off - 1;
      var op := ScanWhile(Continue, Conf(InString, outer + [ObjectKey], false), ms.m.key[1..], PastKey(ms, close));
      var item := data[start..off - 1];
      assert item == ms.m.key;
      key := UnquoteBytes(item);
      op := ColonInterface(op, outer, ms, close);
      if op != ObjectKeyDone {
        key := None;
      }
    }

    /** The white space before a colon, whose first byte has returned `op`, and the colon. */
    method ColonInterface(op0: Op, ghost outer: seq<ParseState>, ghost ms: Members, ghost close: bytes) returns (op: Op)
      requires WfMembers(ms) && close != [] && PastKey(ms, close) != []
      requires var q := Ended(outer + [ObjectKey]);
        var t := PastKey(ms, close);
        op0 == Trans(q, t[0]).op && Fresh(Trans(q, t[0]).next, t[1..]) && !Dies(Trans(q, t[0]).next, t[1..])
      modifies this`off, scan
      ensures data == old(data) && op == ObjectKeyDone
      ensures var p := Conf(BeginValue, outer + [ObjectValue], false);
        Fresh(p, PastColon(ms, close)) && !Dies(p, PastColon(ms, close))
    {
      hide Trans, Run, Trace, Fits, Dies, WfMembers, YieldValue, PastKey, PastColon;
      KeySteps(outer, ms, close);
      op := op0;
      if op == SkipSpace {
        op := ScanWhile(SkipSpace, Ended(outer + [ObjectKey]), ms.m.colon[1..], [COLON] + PastColon(ms, close));
      }
    }

    /** The rest `t` of an object is ahead. */
    ghost predicate InObject(outer: seq<ParseState>, q: Conf, t: MemberTodo, r: bytes)
      reads this, scan
    {
      && AtKeyStart(q) && q.stack == outer + [ObjectKey] && MemberTodoWf(q, t)
      && Fresh(q, MemberTodoText(t) + ([RBRACE] + r)) && !Dies(q, MemberTodoText(t) + ([RBRACE] + r))
    }

    /** `objectInterface`: the opening brace has been read. */
    method ObjectInterface(ghost outer: seq<ParseState>, ghost t0: MemberTodo, ghost r: bytes) returns (res: Decoded)
      requires InObject(outer, Conf(BeginStringOrEmpty, outer + [ObjectKey], false), t0, r)
      modifies this`off, scan
      ensures data == old(data)
      ensures res == Ok(JObject(MemberTodoMeaning(t0, map[]))) && Past(outer, r)
      decreases |MemberTodoText(t0)|, 3
    {
      hide InObject, Past, MemberTodoText, MemberTodoMeaning, WfMembers, MeaningMembers, YieldMembers, BeforeColon;
      var m: map<bytes, Json> := map[];
      var phase := false;
      ghost var t, q := t0, Conf(BeginStringOrEmpty, outer + [ObjectKey], false);
      while true
        invariant data == old(data) && !phase && InObject(outer, q, t, r)
        invariant MemberTodoMeaning(t, m) == MemberTodoMeaning(t0, map[])
        invariant |MemberTodoText(t)| <= |MemberTodoText(t0)|
        decreases |MemberTodoText(t)|
      {
        var op := OpenKey(outer, q, t, r);
        if op == EndObject {
          assert MemberTodoMeaning(t, m) == m by { ClosedObject(t, m); }
          break;
        }
        if op != BeginLiteral {
          phase := true;
          break;
        }
        FieldsMean(t.ms, m);
        var key := KeyInterface(outer, t.ms, [RBRACE] + r);
        if key.None? {
          phase := true;
          break;
        }
        op, m := MemberInterface(outer, t.ms, r, key.value, m);
        if op == EndObject {
          break;
        }
        if op != ObjectValueDone {
          phase := true;
          break;
        }
        FieldsMean(t.ms.others, m);
        t, q := Fields(t.ms.others), Conf(BeginString, outer + [ObjectKey], false);
      }
      res := if phase then Err(Phase) else Ok(JObject(m));
    }

    /** The first byte of the key in `ms` has been read. */
    ghost predicate BeforeColon(outer: seq<ParseState>, ms: Members, close: bytes)
      reads this, scan
    {
      var p := Conf(InString, outer + [ObjectKey], false);
      && IsString(ms.m.key)
      && Fresh(p, ms.m.key[1..] + PastKey(ms, close)) && !Dies(p, ms.m.key[1..] + PastKey(ms, close))
      && 1 <= off && data[off - 1..] == ms.m.key + PastKey(ms, close)
    }

    method OpenKey(ghost outer: seq<ParseState>, ghost q: Conf, ghost t: MemberTodo, ghost r: bytes) returns (op: Op)
      requires InObject(outer, q, t, r)
      modifies this`off, scan
      ensures data == old(data)
      ensures t.CloseObject? ==> op == EndObject && Past(outer, r)
      ensures t.Fields? ==> op == BeginLiteral && WfMembers(t.ms) && BeforeColon(outer, t.ms, [RBRACE] + r)
    {
      hide Trans, Run, Trace, Fits, IsGap, Dies, WfMembers, IsString;
      MemberTodoSteps(outer, q, t, r);
      op := ScanWhile(SkipSpace, q, MemberTodoGap(t), MemberTodoRest(t, [RBRACE] + r));
    }

    /** The value of a member, and the byte that must be a comma or the closing brace. */
    method MemberInterface(ghost outer: seq<ParseState>, ghost ms: Members, ghost r: bytes,
                           key: bytes, fields: map<bytes, Json>)
      returns (op: Op, m: map<bytes, Json>)
      requires WfMembers(ms) && key == StringValue(ms.m.key)
      requires var p := Conf(BeginValue, outer + [ObjectValue], false);
        Fresh(p, PastColon(ms, [RBRACE] + r)) && !Dies(p, PastColon(ms, [RBRACE] + r))
      modifies this`off, scan
      ensures data == old(data)
      ensures ms.LastMember? ==> op == EndObject && Past(outer, r) && m == MeaningMembers(ms, fields)
      ensures ms.MoreMembers? ==>
        && op == ObjectValueDone && InObject(outer, Conf(BeginString, outer + [ObjectKey], false), Fields(ms.others), r)
        && MeaningMembers(ms, fields) == MeaningMembers(ms.others, m)
        && |YieldMembers(ms.others)| < |YieldMembers(ms)|
      decreases |YieldMembers(ms)|, 2
    {
      hide Trans, Run, Trace, Fits, IsGap, Dies, WfMembers, WfValue, Meaning, MeaningMembers, StringValue;
      ghost var p := Conf(BeginValue, outer + [ObjectValue], false);
      ghost var e := ms.m.e;
      ghost var t := BeyondMember(ms, [RBRACE] + r);
      MemberSteps(outer, ms, r, fields);
      MemberShorter(ms);
      MemberParts(ms);
      FreshIsAt(p, PastColon(ms, [RBRACE] + r));
      var item := ValueInterface(p, e.before, Some(e.value), e.after + t);
      if item.Err? {
        op, m := Failed, fields;
      } else {
        m := fields[key := item.value];
        AfterRuns(outer + [ObjectValue], e.after);
        op := ScanWhile(SkipSpace, Ended(outer + [ObjectValue]), e.after, t);
      }
    }

    /** `init`, then `unmarshal` into an empty interface. */
    method Decode(input: bytes) returns (res: Decoded)
      requires IsJson(input) || IsGap(input)
      modifies this, scan
      ensures forall d: Document | WfDocument(d) && Yield(d) == input :: res == Ok(Meaning(d.value))
      ensures IsGap(input) ==> res == Err(Phase)
    {
      hide Trans, Run, Trace, Fits, IsGap, Dies, WfDocument, Meaning, Yield;
      data, off := input, 0;
      scan.Reset();
      InputAhead(input);
      if IsGap(input) {
        GapIsNoJson(input);
        Unit(input);
        Unit([]);
        res := ValueInterface(INIT, input, None, []);
      } else {
        ghost var d: Document :| WfDocument(d) && Yield(d) == input;
        DocumentParts(d);
        res := ValueInterface(INIT, d.before, Some(d.value), d.after);
        forall e: Document | WfDocument(e) && Yield(e) == input ensures e == d {
          OneTree(d, e);
        }
      }
    }
  }

  /** `Unmarshal`: the text is checked as a whole before any of it is decoded. */
  method Unmarshal(data: bytes) returns (res: Decoded)
    ensures res.Ok? <==> IsJson(data)
    ensures res.Err? ==> res == Err(Syntax(Diagnosis(INIT, data, 0, true)))
    ensures forall d: Document | WfDocument(d) && Yield(d) == data :: res == Ok(Meaning(d.value))
    ensures forall j :: res == Ok(j) <==> Denotes(data, j)
  {
    hide WfDocument, Meaning, Yield, Denotes;
    OneMeaning(data);
    var d := new DecodeState();
    var err := CheckValid(data, d.scan);
    if err.Some? {
      res := Err(Syntax(err));
    } else {
      res := d.Decode(data);
    }
  }

  /** The switch on the first byte of a literal. */
  method LiteralValue(item: bytes) returns (res: Result<Json, DecodeError>)
    requires IsLiteral(item) && item != []
    ensures res == Ok(MeaningLiteral(item))
  {
    var c := item[0];
    LiteralStarts(item);
    if c == LOWER_N {
      return Ok(JNull);
    } else if c == LOWER_T || c == LOWER_F {
      return Ok(JBool(c == LOWER_T));
    } else if c == QUOTE {
      var s := UnquoteBytes(item);
      match s
      case None => res := Err(Phase);
      case Some(t) => res := Ok(JString(t));
    } else {
      res := if c != MINUS && !IsDigit(c) then Err(Phase) else Ok(JNumber(item));
    }
  }
}
