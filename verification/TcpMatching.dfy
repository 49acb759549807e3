/** An acknowledgement finds the packet it acknowledges, as long as nothing in between has taken its place. */
module TcpMatching {
  import opened Bytes
  import opened RttModel
  import opened TcpModel
  import opened TcpSamples

  /** The number that acknowledges a packet: behind its payload, of which an empty packet counts as one byte. */
  function Number(p: Packet): int {
    if p.size == 0 then p.seqno + 1 else p.seqno + p.size
  }

  /** What the cache remembers of a packet sent on flow `k`. */
  function Memory(k: FlowKey, p: Packet): Entry {
    Entry(RttKey(k.net, k.transport, Number(p)), p.ts)
  }

  /** Like `s`, with both directions of a key that is not its own reverse. */
  ghost predicate Open(s: StreamState) {
    Healthy(s) && !s.closed && s.key != s.key.Reverse()
  }

  /** `e` is in the cache, and all entries behind it have numbers in `later`. */
  predicate Keeps(c: seq<Entry>, e: Entry, later: set<int>) {
    var i := Find(c, e.key);
    i < |c| && c[i] == e && forall j | i < j < |c| :: c[j].key.seqno in later
  }

  /** All entries are of one flow. */
  predicate OneFlow(c: seq<Entry>, k: FlowKey) {
    forall e | e in c :: e.key.net == k.net && e.key.transport == k.transport
  }

  // ---------- one packet ----------

  /** The acknowledgement of a remembered packet yields the time since that packet as its sample. */
  lemma AckFinds(s: StreamState, e: Entry, later: set<int>, q: Packet)
    requires Open(s) && Keeps(s.cache, e, later) && OneFlow([e], s.key)
    requires q.key == s.key.Reverse() && q.ack == e.key.seqno
    ensures SampleOf(s, q) == Some(Quot(q.ts - e.seen, 1000))
  {
    ReverseTwice(s.key);
    assert e in [e];
    assert AckedKey(s.s2c.key, q) == e.key;
  }

  lemma FindAt(c: seq<Entry>, i: nat)
    requires i < |c| && DistinctKeys(c)
    ensures Find(c, c[i].key) == i
  {
  }

  /** A packet with another number leaves it in the cache, and joins those behind it at most. */
  lemma PushKeeps(c: seq<Entry>, e: Entry, later: set<int>, key: RttKey, ts: int)
    requires DistinctKeys(c) && Keeps(c, e, later) && key != e.key
    ensures Keeps(Pushed(c, key, ts), e, later + {key.seqno})
  {
    var i, j, d := Find(c, e.key), Find(c, key), Pushed(c, key, ts);
    PushedKeeps(c, key, ts);
    var now := if j == |c| || j < i then i else i + 1;
    assert d[now] == e;
    FindAt(d, now);
  }

  /** An acknowledgement of less, and of nothing behind it, leaves it in the cache. */
  lemma PullKeeps(c: seq<Entry>, e: Entry, later: set<int>, key: RttKey, k: FlowKey)
    requires DistinctKeys(c) && OneFlow(c, k) && Keeps(c, e, later)
    requires key.net == k.net && key.transport == k.transport
    requires key.seqno + 1 < e.key.seqno && key.seqno !in later
    ensures Keeps(Pulled(c, key).rest, e, later)
  {
    var n := if Holds(c, key) then Find(c, key) + 1 else StopsAt(c, key);
    PulledShrinks(c, key);
    PullDrops(c, key, k);
    var i := Find(c, e.key);
    assert n <= i by {
      assert c[i] in c;
    }
    hide Pulled, StopsAt, Holds;
    DropKeeps(c, e, later, n);
  }

  lemma DropKeeps(c: seq<Entry>, e: Entry, later: set<int>, n: nat)
    requires DistinctKeys(c) && Keeps(c, e, later) && n <= Find(c, e.key)
    ensures Keeps(c[n..], e, later)
  {
    var i := Find(c, e.key);
    assert c[n..][i - n] == e;
    FindAt(c[n..], i - n);
  }

  /** In a cache of one flow a pull drops a prefix. */
  lemma PullDrops(c: seq<Entry>, key: RttKey, k: FlowKey)
    requires OneFlow(c, k) && key.net == k.net && key.transport == k.transport
    ensures Pulled(c, key).rest == c[if Holds(c, key) then Find(c, key) + 1 else StopsAt(c, key)..]
  {
    if !Holds(c, key) {
      var n := StopsAt(c, key);
      SweepExact(c, key);
      assert forall e | e in c[..n] :: e in c;
      NoOthers(c[..n], key);
    }
  }

  /** Which entries an acknowledgement leaves: those behind its own, or those from the first that is too new on. */
  lemma PullLeaves(c: seq<Entry>, key: RttKey, k: FlowKey, i: nat)
    requires DistinctKeys(c) && OneFlow(c, k) && key.net == k.net && key.transport == k.transport && i < |c|
    ensures c[i] in Pulled(c, key).rest <==> if Holds(c, key) then Find(c, key) < i else StopsAt(c, key) <= i
  {
    var n := if Holds(c, key) then Find(c, key) + 1 else StopsAt(c, key);
    PullDrops(c, key, k);
    if n <= i {
      assert c[n..][i - n] == c[i];
    }
  }

  lemma {:induction false} NoOthers(c: seq<Entry>, key: RttKey)
    requires forall e | e in c :: SameFlow(e.key, key)
    ensures Others(c, key) == []
    decreases |c|
  {
    if c != [] {
      NoOthers(c[1..], key);
    }
  }

  // ---------- packets in between ----------

  /** The numbers sent since, once `m` has been handled. */
  function Since(later: set<int>, m: Packet, k: FlowKey): set<int> {
    if m.key == k then later + {Number(m)} else later
  }

  /**
     The packet of flow `k` with the given number is neither repeated nor acknowledged: no packet of the client has its
     number, and every acknowledgement is of less, by two at least, and of nothing sent since (`later`).
   */
  predicate Spared(ms: seq<Packet>, k: FlowKey, number: int, later: set<int>)
    decreases |ms|
  {
    ms != [] ==>
      && (ms[0].key == k ==> Number(ms[0]) != number)
      && (ms[0].key == k.Reverse() ==> ms[0].ack + 1 < number && ms[0].ack !in later)
      && Spared(ms[1..], k, number, Since(later, ms[0], k))
  }

  /** What the cache is after a packet that does not close the stream. */
  lemma CacheAfter(s: StreamState, m: Packet)
    requires Open(s) && !Handled(s, m).closed
    ensures var c := Handled(s, m).cache;
      if m.key == s.key then c == Pushed(s.cache, Memory(s.key, m).key, m.ts)
      else if m.key == s.key.Reverse() then c == Pulled(s.cache, RttKey(s.key.net, s.key.transport, m.ack)).rest
      else c == s.cache
  {
    hide Pushed, Pulled;
    ReverseTwice(s.key);
  }

  lemma StepKeeps(s: StreamState, m: Packet, e: Entry, later: set<int>)
    requires Open(s) && !Handled(s, m).closed && OneFlow([e], s.key) && Keeps(s.cache, e, later)
    requires m.key == s.key ==> Number(m) != e.key.seqno
    requires m.key == s.key.Reverse() ==> m.ack + 1 < e.key.seqno && m.ack !in later
    ensures Open(Handled(s, m)) && Handled(s, m).key == s.key
    ensures Keeps(Handled(s, m).cache, e, Since(later, m, s.key))
  {
    HandledHealthy(s, m);
    HandledKey(s, m);
    CacheAfter(s, m);
    hide Handled, Keeps, Pushed, Pulled;
    assert e in [e];
    if m.key == s.key {
      PushKeeps(s.cache, e, later, Memory(s.key, m).key, m.ts);
    } else if m.key == s.key.Reverse() {
      PullKeeps(s.cache, e, later, RttKey(s.key.net, s.key.transport, m.ack), s.key);
    }
  }

  lemma {:induction false} RunKeeps(s: StreamState, ms: seq<Packet>, e: Entry, later: set<int>)
    requires Open(s) && !Run(s, ms).closed && OneFlow([e], s.key) && Keeps(s.cache, e, later)
    requires Spared(ms, s.key, e.key.seqno, later)
    ensures Open(Run(s, ms)) && Run(s, ms).key == s.key && exists l :: Keeps(Run(s, ms).cache, e, l)
    decreases |ms|
  {
    hide Handled, Healthy, Keeps, OneFlow;
    if ms != [] {
      var t := Handled(s, ms[0]);
      if t.closed {
        ClosedForGood(t, ms[1..]);
      }
      StepKeeps(s, ms[0], e, later);
      RunKeeps(t, ms[1..], e, Since(later, ms[0], s.key));
    }
  }

  /** The numbers behind a packet that has just been sent: none, unless it repeats one that is remembered. */
  function Behind(c: seq<Entry>, key: RttKey): set<int> {
    if Holds(c, key) then set e | e in c :: e.key.seqno else {}
  }

  lemma SentIsKept(s: StreamState, p: Packet)
    requires Open(s) && p.key == s.key && !Handled(s, p).closed
    ensures Open(Handled(s, p)) && Handled(s, p).key == s.key
    ensures Keeps(Handled(s, p).cache, Memory(s.key, p), Behind(s.cache, Memory(s.key, p).key))
  {
    HandledHealthy(s, p);
    HandledKey(s, p);
    CacheAfter(s, p);
    hide Handled, Healthy;
    JoinsCache(s.cache, Memory(s.key, p));
  }

  lemma JoinsCache(c: seq<Entry>, e: Entry)
    requires DistinctKeys(c)
    ensures Keeps(Pushed(c, e.key, e.seen), e, Behind(c, e.key))
  {
    var d := Pushed(c, e.key, e.seen);
    PushedKeeps(c, e.key, e.seen);
    FindAt(d, if Holds(c, e.key) then 0 else |c|);
  }

  /** A packet that is acknowledged at once yields the time in between. */
  lemma AckOfLast(s: StreamState, p: Packet, q: Packet)
    requires Open(s) && p.key == s.key && !Handled(s, p).closed
    requires q.key == s.key.Reverse() && q.ack == p.seqno + if p.size == 0 then 1 else p.size
    ensures SampleOf(Handled(s, p), q) == Some(Quot(q.ts - p.ts, 1000))
  {
    SentIsKept(s, p);
    hide Handled, Keeps, Healthy;
    AckFinds(Handled(s, p), Memory(s.key, p), Behind(s.cache, Memory(s.key, p).key), q);
  }

  /** So does one that is acknowledged later, if the packets in between neither repeat nor acknowledge it. */
  lemma AckAcross(s: StreamState, p: Packet, ms: seq<Packet>, q: Packet)
    requires Open(s) && p.key == s.key && !Run(s, [p] + ms).closed
    requires Spared(ms, s.key, Number(p), Behind(s.cache, Memory(s.key, p).key))
    requires q.key == s.key.Reverse() && q.ack == p.seqno + if p.size == 0 then 1 else p.size
    ensures SampleOf(Run(s, [p] + ms), q) == Some(Quot(q.ts - p.ts, 1000))
  {
    hide Handled, Keeps, Healthy, Run, Spared, Behind, SampleOf;
    var t := Handled(s, p);
    RunSplit(s, [p], ms);
    OnePacket(s, p);
    assert Run(s, [p] + ms) == Run(t, ms);
    if t.closed {
      ClosedForGood(t, ms);
    }
    SentIsKept(s, p);
    AckBehind(t, Memory(s.key, p), Behind(s.cache, Memory(s.key, p).key), ms, q);
  }

  lemma AckBehind(s: StreamState, e: Entry, later: set<int>, ms: seq<Packet>, q: Packet)
    requires Open(s) && !Run(s, ms).closed && OneFlow([e], s.key) && Keeps(s.cache, e, later)
    requires Spared(ms, s.key, e.key.seqno, later)
    requires q.key == s.key.Reverse() && q.ack == e.key.seqno
    ensures SampleOf(Run(s, ms), q) == Some(Quot(q.ts - e.seen, 1000))
  {
    hide Handled, Keeps, Healthy, Run, Spared, OneFlow;
    RunKeeps(s, ms, e, later);
    var l :| Keeps(Run(s, ms).cache, e, l);
    AckFinds(Run(s, ms), e, l, q);
  }

  /** Packets in order, and acknowledgements of less: that spares a packet. */
  lemma {:induction false} InOrderSpares(ms: seq<Packet>, k: FlowKey, number: int, later: set<int>)
    requires forall m | m in ms :: m.key == k ==> Number(m) > number
    requires forall m | m in ms :: m.key == k.Reverse() ==> m.ack + 1 < number
    requires forall n | n in later :: n > number
    ensures Spared(ms, k, number, later)
    decreases |ms|
  {
    if ms != [] {
      assert ms[0] in ms && forall m | m in ms[1..] :: m in ms;
      InOrderSpares(ms[1..], k, number, Since(later, ms[0], k));
    }
  }

  // ---------- where it does not ----------

  /** A SYN numbered 1000, and a packet that should have come before it. */
  const FIRST := Packet(FLOW, true, false, false, false, false, 1000, 0, 0, 0)
  const BELATED := Packet(FLOW, false, true, false, false, false, 500, 0, 0, 1000)

  function Ack(n: int, ts: int): Packet {
    Packet(FLOW.Reverse(), false, true, false, false, false, 0, n, 0, ts)
  }

  /**
     The acknowledgement of a packet that comes out of order drops all that was sent before it: 1001 is never
     acknowledged by 501, and yet its own acknowledgement yields no sample.
   */
  lemma BelatedLosesSample()
    ensures SampleOf(Run(Opened(FLOW, 0), [FIRST, BELATED]), Ack(501, 5000)) == Some(4)
    ensures SampleOf(Run(Opened(FLOW, 0), [FIRST, BELATED, Ack(501, 5000)]), Ack(1001, 9000)) == None
  {
    var s0 := Opened(FLOW, 0);
    var s2 := Handled(Handled(s0, FIRST), BELATED);
    BelatedCache();
    hide Handled, Run, SampleOf, Healthy, Pushed, Pulled, Opened, Memory;
    var ack := Ack(501, 5000);
    Goes(s2, ack);
    Pulls(s2.cache);
    SampleIs(s2, ack);
    SampleIs(Handled(s2, ack), Ack(1001, 9000));
    RunThree(s0, FIRST, BELATED, ack);
  }

  lemma BelatedCache()
    ensures var s := Handled(Handled(Opened(FLOW, 0), FIRST), BELATED);
      Open(s) && s.key == FLOW && s.cache == [Memory(FLOW, FIRST), Memory(FLOW, BELATED)]
  {
    OpenedHealthy(FLOW, 0);
    PushesTwo(Memory(FLOW, FIRST), Memory(FLOW, BELATED));
    hide Handled, Healthy, Pushed;
    Goes(Opened(FLOW, 0), FIRST);
    Goes(Handled(Opened(FLOW, 0), FIRST), BELATED);
  }

  /** An acknowledgement one short of a packet takes its sample and forgets it. */
  lemma OneShortTakesSample()
    ensures SampleOf(Run(Opened(FLOW, 0), [FIRST]), Ack(1000, 5000)) == Some(5)
    ensures SampleOf(Run(Opened(FLOW, 0), [FIRST, Ack(1000, 5000)]), Ack(1001, 9000)) == None
  {
    hide Handled, Run, SampleOf;
    var s0 := Opened(FLOW, 0);
    var s1 := Handled(s0, FIRST);
    OpenedHealthy(FLOW, 0);
    Goes(s0, FIRST);
    var a := Memory(FLOW, FIRST);
    assert s1.cache == [a];
    Goes(s1, Ack(1000, 5000));
    ShortPull(a);
    SampleIs(s1, Ack(1000, 5000));
    SampleIs(Handled(s1, Ack(1000, 5000)), Ack(1001, 9000));
    RunThree(s0, FIRST, Ack(1000, 5000), FIRST);
  }

  lemma Goes(s: StreamState, p: Packet)
    requires Open(s) && !p.Ends()
    ensures Open(Handled(s, p)) && Handled(s, p).key == s.key
    ensures var c := Handled(s, p).cache;
      if p.key == s.key then c == Pushed(s.cache, Memory(s.key, p).key, p.ts)
      else if p.key == s.key.Reverse() then c == Pulled(s.cache, RttKey(s.key.net, s.key.transport, p.ack)).rest
      else c == s.cache
  {
    HandledHealthy(s, p);
    HandledKey(s, p);
    HandledMarks(s, p);
    CacheAfter(s, p);
  }

  lemma SampleIs(s: StreamState, p: Packet)
    requires Open(s) && p.key == s.key.Reverse()
    ensures SampleOf(s, p) == match Pulled(s.cache, RttKey(s.key.net, s.key.transport, p.ack)).value
      case None => None
      case Some(e) => Some(Quot(p.ts - e.seen, 1000))
  {
    ReverseTwice(s.key);
    hide Pulled, Quot;
  }

  lemma Pulls(c: seq<Entry>)
    requires c == [Memory(FLOW, FIRST), Memory(FLOW, BELATED)]
    ensures Pulled(c, RttKey(FLOW.net, FLOW.transport, 501)) == Scan(Some(Entry(c[1].key, 1000)), [])
    ensures forall key :: Pulled([], key) == Scan(None, [])
  {
    FindAt(c, 1);
    assert c[2..] == [];
  }

  lemma PushesTwo(a: Entry, b: Entry)
    requires a == Memory(FLOW, FIRST) && b == Memory(FLOW, BELATED)
    ensures Pushed([], a.key, a.seen) == [a] && Pushed([a], b.key, b.seen) == [a, b]
  {
  }

  lemma ShortPull(a: Entry)
    requires a == Memory(FLOW, FIRST)
    ensures Pulled([a], RttKey(FLOW.net, FLOW.transport, 1000)) == Scan(Some(a), [])
    ensures forall key :: Pulled([], key) == Scan(None, [])
  {
    var key := RttKey(FLOW.net, FLOW.transport, 1000);
    assert [a][1..] == [];
    assert Find([a], key) == 1;
    assert Sweep([a], key) == Scan(Some(a), []);
  }

  lemma RunThree(s: StreamState, a: Packet, b: Packet, c: Packet)
    ensures Run(s, [a]) == Handled(s, a) && Run(s, [a, b]) == Handled(Handled(s, a), b)
    ensures Run(s, [a, b, c]) == Handled(Handled(Handled(s, a), b), c)
  {
    hide Handled;
    OnePacket(s, a);
    OnePacket(Handled(s, a), b);
    OnePacket(Handled(Handled(s, a), b), c);
    RunSplit(s, [a], [b]);
    RunSplit(s, [a, b], [c]);
    assert [a, b] == [a] + [b] && [a, b, c] == [a, b] + [c];
  }
}
