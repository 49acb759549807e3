/** A compacted text consists of its tokens alone. */
module Density {
  import opened Bytes
  import opened Scanning
  import opened Grammar
  import opened Recognition
  import opened Trees
  import opened CompactResults

  /** The scanner skips nothing: every byte belongs to a token. */
  predicate Dense(es: seq<Event>) {
    forall e | e in es :: !e.op.SkipSpace? && !e.op.End?
  }

  lemma DenseJoin(a: seq<Event>, b: seq<Event>)
    requires Dense(a) && Dense(b)
    ensures Dense(a + b)
  {
  }

  lemma {:induction false} DenseMark(s: bytes)
    ensures Dense(Mark(s, Continue))
    decreases s
  {
    if s != [] {
      DenseMark(s[1..]);
    }
  }

  lemma DenseLiteral(text: bytes)
    ensures Dense(EventsLiteral(text))
  {
    if text != [] {
      DenseMark(text[1..]);
    }
  }

  lemma DenseBracketed(a: Event, es: seq<Event>, b: Event)
    requires Dense([a]) && Dense(es) && Dense([b])
    ensures Dense([a] + es + [b])
  {
  }

  /** In a compacted tree, which has no gaps, nothing is skipped. */
  lemma {:induction false} DenseValue(v: Value, html: bool)
    requires WfValue(v) && NeatValue(v, Compacted(html))
    ensures Dense(EventsValue(RestyleValue(v, Compacted(html))))
    decreases v
  {
    match v
    case Literal(text) => DenseLiteral(RestyleText(text, Compacted(html)));
    case EmptyArray(_) =>
    case Array(es) =>
      DenseElements(es, html);
      DenseBracketed(Event(LBRACKET, BeginArray), EventsElements(RestyleElements(es, Compacted(html))),
                     Event(RBRACKET, EndArray));
    case EmptyObject(spaces) => SpacesLeak(spaces, html);
    case Object(ms) =>
      DenseMembers(ms, html);
      DenseBracketed(Event(LBRACE, BeginObject), EventsMembers(RestyleMembers(ms, Compacted(html))),
                     Event(RBRACE, EndObject));
  }

  lemma {:induction false} DenseElement(e: Element, html: bool)
    requires WfElement(e) && NeatElement(e, Compacted(html))
    ensures Dense(EventsElement(RestyleElement(e, Compacted(html))))
    decreases e
  {
    hide Dense;
    DenseValue(e.value, html);
    var es := EventsValue(RestyleValue(e.value, Compacted(html)));
    assert [] + es + [] == es;
  }

  lemma {:induction false} DenseElements(es: Elements, html: bool)
    requires WfElements(es) && NeatElements(es, Compacted(html))
    ensures Dense(EventsElements(RestyleElements(es, Compacted(html))))
    decreases es
  {
    hide WfElement, NeatElement, EventsElement, RestyleElement;
    DenseElement(es.e, html);
    if es.More? {
      DenseElements(es.rest, html);
      DenseJoin(EventsElement(RestyleElement(es.e, Compacted(html))), [Event(COMMA, ArrayValueDone)]);
    }
  }

  lemma {:induction false} DenseMember(m: Member, html: bool)
    requires WfMember(m) && NeatGap(m.before, Compacted(html)) && NeatElement(m.e, Compacted(html))
    ensures Dense(EventsMember(RestyleMember(m, Compacted(html))))
    decreases m
  {
    var r := RestyleMember(m, Compacted(html));
    SpacesLeak(m.colon, html);
    DenseLiteral(r.key);
    DenseElement(m.e, html);
    hide WfElement, NeatElement, EventsElement, RestyleElement, EventsLiteral;
    assert [] + EventsLiteral(r.key) + [] == EventsLiteral(r.key);
    DenseJoin(EventsLiteral(r.key), [Event(COLON, ObjectKeyDone)]);
  }

  lemma {:induction false} DenseMembers(ms: Members, html: bool)
    requires WfMembers(ms) && NeatMembers(ms, Compacted(html))
    ensures Dense(EventsMembers(RestyleMembers(ms, Compacted(html))))
    decreases ms
  {
    hide WfElement, WfMember, NeatElement, NeatGap, EventsMember, RestyleMember;
    DenseMember(ms.m, html);
    if ms.MoreMembers? {
      DenseMembers(ms.others, html);
      DenseJoin(EventsMember(RestyleMember(ms.m, Compacted(html))), [Event(COMMA, ObjectValueDone)]);
    }
  }

  /** What `compact` prints for a neat text has neither white space nor comments outside its tokens. */
  lemma CompactDense(d: Document, html: bool)
    requires WfDocument(d) && Neat(d, Compacted(html))
    ensures Dense(Trace(INIT, Compact(Yield(d), html)))
  {
    var c := Restyle(d, Compacted(html));
    CompactYields(d, html);
    RestyledDocument(d, Compacted(html));
    DocumentReads(c);
    SpacesLeak(d.after, html);
    DenseValue(d.value, html);
    hide EventsValue, RestyleValue;
    assert [] + EventsValue(c.value) + [] == EventsValue(c.value);
  }
}
