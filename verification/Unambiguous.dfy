/** The grammar is unambiguous: a text is the yield of at most one document. */
module Unambiguous {
  import opened Bytes
  import opened Scanning
  import opened Grammar
  import opened Recognition

  /** `r` does not go on with `op`. */
  predicate Stops(r: seq<Event>, op: Op) {
    r == [] || r[0].op != op
  }

  lemma {:induction false} SameMark(a: bytes, r: seq<Event>, b: bytes, t: seq<Event>, op: Op)
    requires Mark(a, op) + r == Mark(b, op) + t && Stops(r, op) && Stops(t, op)
    ensures a == b && r == t
    decreases a
  {
    if a != [] {
      assert (Mark(a, op) + r)[0] == Event(a[0], op);
    }
    if b != [] {
      assert (Mark(b, op) + t)[0] == Event(b[0], op);
    }
    if a != [] && b != [] {
      AssocEvents([Event(a[0], op)], Mark(a[1..], op), r);
      AssocEvents([Event(b[0], op)], Mark(b[1..], op), t);
      Uncons(Event(a[0], op), Mark(a[1..], op) + r, Event(b[0], op), Mark(b[1..], op) + t);
      SameMark(a[1..], r, b[1..], t, op);
      assert a == [a[0]] + a[1..] && b == [b[0]] + b[1..];
    } else {
      assert Mark(a, op) == [] ==> Mark(a, op) + r == r;
      assert Mark(b, op) == [] ==> Mark(b, op) + t == t;
    }
  }

  lemma SameLiteral(a: bytes, r: seq<Event>, b: bytes, t: seq<Event>)
    requires a != [] && b != [] && EventsLiteral(a) + r == EventsLiteral(b) + t
    requires Stops(r, Continue) && Stops(t, Continue)
    ensures a == b && r == t
  {
    AssocEvents([Event(a[0], BeginLiteral)], Mark(a[1..], Continue), r);
    AssocEvents([Event(b[0], BeginLiteral)], Mark(b[1..], Continue), t);
    Uncons(Event(a[0], BeginLiteral), Mark(a[1..], Continue) + r,
           Event(b[0], BeginLiteral), Mark(b[1..], Continue) + t);
    SameMark(a[1..], r, b[1..], t, Continue);
    assert a == [a[0]] + a[1..] && b == [b[0]] + b[1..];
  }

  lemma Cons(e: Event, a: seq<Event>, b: seq<Event>, r: seq<Event>)
    ensures ([e] + a + b) + r == [e] + (a + (b + r))
  {
  }

  lemma Uncons(e: Event, a: seq<Event>, f: Event, b: seq<Event>)
    requires [e] + a == [f] + b
    ensures e == f && a == b
  {
    assert ([e] + a)[0] == e && ([f] + b)[0] == f && ([e] + a)[1..] == a && ([f] + b)[1..] == b;
  }

  lemma AssocEvents(a: seq<Event>, b: seq<Event>, c: seq<Event>)
    ensures (a + b) + c == a + (b + c)
  {
  }

  /** The first event of a value: which of the three kinds it is. */
  function Opening(v: Value): Op {
    match v
    case Literal(_) => BeginLiteral
    case EmptyArray(_) => BeginArray
    case Array(_) => BeginArray
    case EmptyObject(_) => BeginObject
    case Object(_) => BeginObject
  }

  lemma ValueOpens(v: Value, r: seq<Event>)
    requires WfValue(v)
    ensures EventsValue(v) != [] && (EventsValue(v) + r)[0].op == Opening(v)
  {
    if v.Literal? {
      LiteralLexes(v.text);
    }
  }

  /** The events between the brackets of a composite. */
  function Inner(v: Value): seq<Event> {
    match v
    case Literal(_) => []
    case EmptyArray(gap) => Mark(gap, SkipSpace)
    case Array(es) => EventsElements(es)
    case EmptyObject(spaces) => Mark(spaces, SkipSpace)
    case Object(ms) => EventsMembers(ms)
  }

  function Closing(v: Value): Event {
    if v.EmptyArray? || v.Array? then Event(RBRACKET, EndArray) else Event(RBRACE, EndObject)
  }

  lemma CompositeUncons(v: Value, r: seq<Event>, w: Value, t: seq<Event>)
    requires !v.Literal? && !w.Literal? && Opening(v) == Opening(w)
    requires EventsValue(v) + r == EventsValue(w) + t
    ensures Inner(v) + ([Closing(v)] + r) == Inner(w) + ([Closing(w)] + t)
  {
    var open := EventsValue(v)[0];
    assert EventsValue(w)[0] == (EventsValue(w) + t)[0] && open == (EventsValue(v) + r)[0];
    Cons(open, Inner(v), [Closing(v)], r);
    Cons(open, Inner(w), [Closing(w)], t);
    Uncons(open, Inner(v) + ([Closing(v)] + r), open, Inner(w) + ([Closing(w)] + t));
  }

  /** A gap, and then the first event of an element or of a key. */
  lemma GapThenValue(g: bytes, v: Value, r: seq<Event>, h: bytes, t: seq<Event>)
    requires WfValue(v) && Mark(g, SkipSpace) + (EventsValue(v) + r) == Mark(h, SkipSpace) + t
    requires Stops(t, SkipSpace)
    ensures g == h && t != [] && t[0].op == Opening(v)
  {
    ValueOpens(v, r);
    SameMark(g, EventsValue(v) + r, h, t, SkipSpace);
  }

  // ---------- the same events come from the same tree ----------

  lemma {:induction false} SameValue(v: Value, r: seq<Event>, w: Value, t: seq<Event>)
    requires WfValue(v) && WfValue(w) && EventsValue(v) + r == EventsValue(w) + t
    requires Stops(r, Continue) && Stops(t, Continue)
    ensures v == w && r == t
    decreases v
  {
    hide EventsElements, EventsMembers, EventsLiteral;
    ValueOpens(v, r);
    ValueOpens(w, t);
    if v.Literal? {
      LiteralLexes(v.text);
      LiteralLexes(w.text);
      SameLiteral(v.text, r, w.text, t);
    } else {
      CompositeUncons(v, r, w, t);
      SameInner(v, [Closing(v)] + r, w, [Closing(w)] + t);
      Uncons(Closing(v), r, Closing(w), t);
    }
  }

  lemma {:induction false} SameInner(v: Value, r: seq<Event>, w: Value, t: seq<Event>)
    requires WfValue(v) && WfValue(w) && !v.Literal? && !w.Literal? && Opening(v) == Opening(w)
    requires r != [] && t != [] && r[0] == Closing(v) && t[0] == Closing(w)
    requires Inner(v) + r == Inner(w) + t
    ensures v == w && r == t
    decreases v, 0
  {
    match v
    case EmptyArray(gap) =>
      if w.EmptyArray? {
        SameMark(gap, r, w.gap, t, SkipSpace);
      } else {
        ElementsOpen(w.elements, t, gap, r);
      }
    case Array(es) =>
      if w.EmptyArray? {
        ElementsOpen(es, r, w.gap, t);
      } else {
        SameElements(es, r, w.elements, t);
      }
    case EmptyObject(spaces) =>
      if w.EmptyObject? {
        SameMark(spaces, r, w.spaces, t, SkipSpace);
      } else {
        MembersOpen(w.members, t, spaces, r);
      }
    case Object(ms) =>
      if w.EmptyObject? {
        MembersOpen(ms, r, w.spaces, t);
      } else {
        SameMembers(ms, r, w.members, t);
      }
    case Literal(_) =>
  }

  // ---------- elements ----------

  const COMMA_EVENT := Event(COMMA, ArrayValueDone)

  /** What follows the first element. */
  function Tail(es: Elements): seq<Event> {
    match es
    case Last(_) => []
    case Trailing(_, hole) => [COMMA_EVENT] + Mark(hole, SkipSpace)
    case More(_, rest) => [COMMA_EVENT] + EventsElements(rest)
  }

  lemma ElementsSplit(es: Elements, r: seq<Event>)
    ensures EventsElements(es) + r == EventsElement(es.e) + (Tail(es) + r)
  {
  }

  lemma ElementSplit(e: Element, r: seq<Event>)
    ensures EventsElement(e) + r
         == Mark(e.before, SkipSpace) + (EventsValue(e.value) + (Mark(e.after, SkipSpace) + r))
  {
    hide EventsValue, Mark;
    var a, v, b := Mark(e.before, SkipSpace), EventsValue(e.value), Mark(e.after, SkipSpace);
    assert (a + v + b) + r == a + (v + (b + r));
  }

  /** A gap before the closing bracket is not the start of an element. */
  lemma ElementsOpen(es: Elements, r: seq<Event>, g: bytes, t: seq<Event>)
    requires WfElements(es) && t != [] && (t[0].op == EndArray)
    ensures EventsElements(es) + r != Mark(g, SkipSpace) + t
  {
    hide EventsValue, Mark, EventsElement, EventsElements;
    if EventsElements(es) + r == Mark(g, SkipSpace) + t {
      ElementsSplit(es, r);
      ElementSplit(es.e, Tail(es) + r);
      GapThenValue(es.e.before, es.e.value, Mark(es.e.after, SkipSpace) + (Tail(es) + r), g, t);
    }
  }

  lemma MarkStops(a: bytes, r: seq<Event>)
    requires Stops(r, Continue)
    ensures Stops(Mark(a, SkipSpace) + r, Continue)
  {
    if a != [] {
      assert (Mark(a, SkipSpace) + r)[0] == Event(a[0], SkipSpace);
    } else {
      assert Mark(a, SkipSpace) + r == r;
    }
  }

  lemma {:induction false} SameElement(e: Element, r: seq<Event>, f: Element, t: seq<Event>)
    requires WfElement(e) && WfElement(f) && EventsElement(e) + r == EventsElement(f) + t
    requires Stops(r, Continue) && Stops(t, Continue) && Stops(r, SkipSpace) && Stops(t, SkipSpace)
    ensures e == f && r == t
    decreases e
  {
    hide EventsValue, Mark, EventsElement;
    var r1, t1 := Mark(e.after, SkipSpace) + r, Mark(f.after, SkipSpace) + t;
    ElementSplit(e, r);
    ElementSplit(f, t);
    ValueOpens(e.value, r1);
    ValueOpens(f.value, t1);
    SameMark(e.before, EventsValue(e.value) + r1, f.before, EventsValue(f.value) + t1, SkipSpace);
    MarkStops(e.after, r);
    MarkStops(f.after, t);
    SameValue(e.value, r1, f.value, t1);
    SameMark(e.after, r, f.after, t, SkipSpace);
  }

  lemma {:induction false} SameElements(es: Elements, r: seq<Event>, fs: Elements, t: seq<Event>)
    requires WfElements(es) && WfElements(fs) && EventsElements(es) + r == EventsElements(fs) + t
    requires r != [] && t != [] && r[0].op == EndArray && t[0].op == EndArray
    ensures es == fs && r == t
    decreases es
  {
    hide EventsElement, EventsElements, Mark;
    ElementsSplit(es, r);
    ElementsSplit(fs, t);
    TailHead(es, r);
    TailHead(fs, t);
    SameElement(es.e, Tail(es) + r, fs.e, Tail(fs) + t);
    if !es.Last? {
      var a := if es.Trailing? then Mark(es.hole, SkipSpace) else EventsElements(es.rest);
      var b := if fs.Trailing? then Mark(fs.hole, SkipSpace) else EventsElements(fs.rest);
      AssocEvents([COMMA_EVENT], a, r);
      AssocEvents([COMMA_EVENT], b, t);
      Uncons(COMMA_EVENT, a + r, COMMA_EVENT, b + t);
      if es.Trailing? && fs.Trailing? {
        SameMark(es.hole, r, fs.hole, t, SkipSpace);
      } else if es.Trailing? {
        ElementsOpen(fs.rest, t, es.hole, r);
      } else if fs.Trailing? {
        ElementsOpen(es.rest, r, fs.hole, t);
      } else {
        SameElements(es.rest, r, fs.rest, t);
      }
    }
  }

  lemma TailHead(es: Elements, r: seq<Event>)
    requires r != [] && r[0].op == EndArray
    ensures Tail(es) + r != [] && (Tail(es) + r)[0] == (if es.Last? then r[0] else COMMA_EVENT)
    ensures es.Last? ==> Tail(es) + r == r
  {
  }

  // ---------- members ----------

  const MEMBER_COMMA := Event(COMMA, ObjectValueDone)
  const COLON_EVENT := Event(COLON, ObjectKeyDone)

  function MemberTail(ms: Members): seq<Event> {
    match ms
    case LastMember(_) => []
    case MoreMembers(_, others) => [MEMBER_COMMA] + EventsMembers(others)
  }

  lemma MembersSplit(ms: Members, r: seq<Event>)
    ensures EventsMembers(ms) + r == EventsMember(ms.m) + (MemberTail(ms) + r)
  {
  }

  lemma MemberSplit(m: Member, r: seq<Event>)
    ensures EventsMember(m) + r
         == Mark(m.before, SkipSpace) + (EventsLiteral(m.key)
            + (Mark(m.colon, SkipSpace) + ([COLON_EVENT] + (EventsElement(m.e) + r))))
  {
    hide EventsElement, EventsLiteral, Mark;
    var a, k, b, e := Mark(m.before, SkipSpace), EventsLiteral(m.key), Mark(m.colon, SkipSpace), EventsElement(m.e);
    assert (a + k + b + [COLON_EVENT] + e) + r == a + (k + (b + ([COLON_EVENT] + (e + r))));
  }

  lemma KeyOpens(key: bytes, r: seq<Event>)
    requires key != []
    ensures Stops(EventsLiteral(key) + r, SkipSpace) && Stops(EventsLiteral(key) + r, EndObject)
    ensures EventsLiteral(key) + r != []
  {
    assert (EventsLiteral(key) + r)[0] == EventsLiteral(key)[0];
  }

  lemma MembersOpen(ms: Members, r: seq<Event>, g: bytes, t: seq<Event>)
    requires WfMembers(ms) && t != [] && t[0].op == EndObject
    ensures EventsMembers(ms) + r != Mark(g, SkipSpace) + t
  {
    hide EventsElement, EventsLiteral, Mark, EventsMember, EventsMembers;
    if EventsMembers(ms) + r == Mark(g, SkipSpace) + t {
      var m, r1 := ms.m, MemberTail(ms) + r;
      MembersSplit(ms, r);
      MemberSplit(m, r1);
      var k := Mark(m.colon, SkipSpace) + ([COLON_EVENT] + (EventsElement(m.e) + r1));
      KeyOpens(m.key, k);
      SameMark(m.before, EventsLiteral(m.key) + k, g, t, SkipSpace);
    }
  }

  lemma {:induction false} SameMember(m: Member, r: seq<Event>, n: Member, t: seq<Event>)
    requires WfMember(m) && WfMember(n) && EventsMember(m) + r == EventsMember(n) + t
    requires Stops(r, Continue) && Stops(t, Continue) && Stops(r, SkipSpace) && Stops(t, SkipSpace)
    ensures m == n && r == t
    decreases m
  {
    hide EventsElement, EventsLiteral, Mark, EventsMember;
    var r1, t1 := EventsElement(m.e) + r, EventsElement(n.e) + t;
    var r2, t2 := Mark(m.colon, SkipSpace) + ([COLON_EVENT] + r1), Mark(n.colon, SkipSpace) + ([COLON_EVENT] + t1);
    MemberSplit(m, r);
    MemberSplit(n, t);
    KeyOpens(m.key, r2);
    KeyOpens(n.key, t2);
    SameMark(m.before, EventsLiteral(m.key) + r2, n.before, EventsLiteral(n.key) + t2, SkipSpace);
    MarkStops(m.colon, [COLON_EVENT] + r1);
    MarkStops(n.colon, [COLON_EVENT] + t1);
    SameLiteral(m.key, r2, n.key, t2);
    SameMark(m.colon, [COLON_EVENT] + r1, n.colon, [COLON_EVENT] + t1, SkipSpace);
    Uncons(COLON_EVENT, r1, COLON_EVENT, t1);
    SameElement(m.e, r, n.e, t);
  }

  lemma {:induction false} SameMembers(ms: Members, r: seq<Event>, ns: Members, t: seq<Event>)
    requires WfMembers(ms) && WfMembers(ns) && EventsMembers(ms) + r == EventsMembers(ns) + t
    requires r != [] && t != [] && r[0].op == EndObject && t[0].op == EndObject
    ensures ms == ns && r == t
    decreases ms
  {
    hide EventsMember, EventsMembers;
    MembersSplit(ms, r);
    MembersSplit(ns, t);
    MemberTailHead(ms, r);
    MemberTailHead(ns, t);
    SameMember(ms.m, MemberTail(ms) + r, ns.m, MemberTail(ns) + t);
    if ms.MoreMembers? {
      AssocEvents([MEMBER_COMMA], EventsMembers(ms.others), r);
      AssocEvents([MEMBER_COMMA], EventsMembers(ns.others), t);
      Uncons(MEMBER_COMMA, EventsMembers(ms.others) + r, MEMBER_COMMA, EventsMembers(ns.others) + t);
      SameMembers(ms.others, r, ns.others, t);
    }
  }

  lemma MemberTailHead(ms: Members, r: seq<Event>)
    requires r != [] && r[0].op == EndObject
    ensures MemberTail(ms) + r != [] && (MemberTail(ms) + r)[0] == (if ms.LastMember? then r[0] else MEMBER_COMMA)
    ensures ms.LastMember? ==> MemberTail(ms) + r == r
  {
  }

  /** One text, one tree. */
  lemma OneTree(d: Document, e: Document)
    requires WfDocument(d) && WfDocument(e) && Yield(d) == Yield(e)
    ensures d == e
  {
    hide EventsValue, Mark;
    DocumentReads(d);
    DocumentReads(e);
    var r, t := Mark(d.after, End), Mark(e.after, End);
    AssocEvents(Mark(d.before, SkipSpace), EventsValue(d.value), r);
    AssocEvents(Mark(e.before, SkipSpace), EventsValue(e.value), t);
    ValueOpens(d.value, r);
    ValueOpens(e.value, t);
    SameMark(d.before, EventsValue(d.value) + r, e.before, EventsValue(e.value) + t, SkipSpace);
    EndStops(d.after);
    EndStops(e.after);
    SameValue(d.value, r, e.value, t);
    assert r + [] == r && t + [] == t;
    SameMark(d.after, [], e.after, [], End);
  }

  lemma EndStops(a: bytes)
    ensures Stops(Mark(a, End), Continue)
  {
  }
}
