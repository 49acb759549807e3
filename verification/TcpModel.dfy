/** The life of one bidirectional stream (tcpassembly/conn.go, tcpassembly/stream.go), as values. */
module TcpModel {
  import opened RttModel

  datatype FlowKey = FlowKey(net: Flow, transport: Flow) {
    function Reverse(): FlowKey {
      FlowKey(net.Reverse(), transport.Reverse())
    }
  }

  lemma ReverseTwice(k: FlowKey)
    ensures k.Reverse().Reverse() == k
  {
  }

  datatype Packet = Packet(key: FlowKey, syn: bool, ackFlag: bool, fin: bool, rst: bool, psh: bool,
                           seqno: int, ack: int, size: nat, ts: int) {
    predicate Ends() {
      fin || rst
    }
  }

  datatype ConnState = ConnState(key: FlowKey, cli2srv: bool, closed: bool, waitClose: bool, bytes: int, packets: int)

  datatype Rtts = Rtts(syn: int, min: int, max: int, total: int, count: int)

  datatype StreamState = StreamState(
    key: FlowKey, c2s: ConnState, s2c: ConnState, firstSeen: int, lastSeen: int, closed: bool,
    rtts: Rtts, cache: seq<Entry>, cacheClosed: bool)

  const MAX_INT64 := 0x7FFF_FFFF_FFFF_FFFF
  const MIN_INT64 := -0x8000_0000_0000_0000

  function NewConn(key: FlowKey, cli2srv: bool): ConnState {
    ConnState(key, cli2srv, false, false, 0, 0)
  }

  const NO_RTTS := Rtts(-1, MAX_INT64, MIN_INT64, 0, 0)

  /** A stream that has just been opened for `k`. */
  function Opened(k: FlowKey, ts: int): StreamState {
    StreamState(k, NewConn(k, true), NewConn(k.Reverse(), false), ts, ts, false, NO_RTTS, [], false)
  }

  /** Which connection a key leads to; for a key that is its own reverse it is the server's. */
  datatype Side = Client | Server | Neither

  function SideOf(k: FlowKey, key: FlowKey): Side {
    if key == k.Reverse() then Server else if key == k then Client else Neither
  }

  // ---------- one packet ----------

  /** The division of Go, which truncates toward zero. */
  function Quot(a: int, b: int): int
    requires b > 0
  {
    if a >= 0 then a / b else -(-a / b)
  }

  /** A round-trip sample, in microseconds; a negative one counts, but is not aggregated. */
  function Sampled(r: Rtts, rtt: int): Rtts {
    var s := r.(count := r.count + 1);
    if rtt < 0 then s
    else Rtts(if s.count == 1 then rtt else s.syn,
              if rtt < s.min then rtt else s.min,
              if rtt > s.max then rtt else s.max,
              s.total + rtt, s.count)
  }

  function Bumped(c: ConnState, p: Packet): ConnState {
    c.(bytes := c.bytes + p.size, packets := c.packets + 1)
  }

  /** The key under which a packet of the client is remembered. */
  function SentKey(k: FlowKey, p: Packet): RttKey {
    RttKey(k.net, k.transport, p.seqno + if p.size > 0 then p.size else 1)
  }

  /** The key that a packet of the server acknowledges. */
  function AckedKey(k: FlowKey, p: Packet): RttKey {
    RttKey(k.net.Reverse(), k.transport.Reverse(), p.ack)
  }

  /** `stat` on an open stream. */
  function Counted(s: StreamState, side: Side, p: Packet): StreamState
    requires !side.Neither?
  {
    if side.Client? then
      s.(c2s := Bumped(s.c2s, p), cache := Pushed(s.cache, SentKey(s.c2s.key, p), p.ts))
    else
      var r := Pulled(s.cache, AckedKey(s.s2c.key, p));
      s.(s2c := Bumped(s.s2c, p), cache := r.rest,
         rtts := if r.value.Some? then Sampled(s.rtts, Quot(p.ts - r.value.value.seen, 1000)) else s.rtts)
  }

  /** The counters of an interface. */
  datatype Totals = Totals(txBytes: int, txPackets: int, rxBytes: int, rxPackets: int)

  function Credited(t: Totals, side: Side, p: Packet): Totals {
    if side.Client? then t.(txBytes := t.txBytes + p.size, txPackets := t.txPackets + 1)
    else t.(rxBytes := t.rxBytes + p.size, rxPackets := t.rxPackets + 1)
  }

  function Marked(s: StreamState, side: Side, p: Packet): StreamState {
    if !p.Ends() then s
    else if side.Client? then s.(c2s := s.c2s.(waitClose := true))
    else s.(s2c := s.s2c.(waitClose := true))
  }

  /** The other direction has ended before. */
  predicate OtherEnded(s: StreamState, side: Side) {
    if side.Client? then s.s2c.waitClose else s.c2s.waitClose
  }

  function Shut(s: StreamState): StreamState {
    s.(closed := true, cache := [], cacheClosed := true)
  }

  function BothClosed(s: StreamState): StreamState {
    s.(c2s := s.c2s.(closed := true), s2c := s.s2c.(closed := true))
  }

  function Seen(s: StreamState, ts: int): StreamState {
    if s.lastSeen < ts then s.(lastSeen := ts) else s
  }

  /** A packet reaches a connection of an open stream. */
  function HandledOn(s: StreamState, side: Side, p: Packet): StreamState
    requires !side.Neither?
  {
    if (if side.Client? then s.c2s.closed else s.s2c.closed) then s
    else
      var counted := Counted(Marked(s, side, p), side, p);
      if p.Ends() && OtherEnded(s, side) then Shut(BothClosed(counted)) else counted
  }

  /** A packet reaches the stream. */
  function Handled(s: StreamState, p: Packet): StreamState {
    var side := SideOf(s.key, p.key);
    if s.closed || side.Neither? then s else HandledOn(Seen(s, p.ts), side, p)
  }

  // ---------- what every lifetime keeps ----------

  /** Samples taken and packets remembered never exceed the packets of the client. */
  ghost predicate Sound(s: StreamState) {
    && s.c2s.key == s.key && s.s2c.key == s.key.Reverse()
    && s.c2s.cli2srv && !s.s2c.cli2srv
    && s.rtts.count + |s.cache| <= s.c2s.packets
    && 0 <= s.rtts.count <= s.s2c.packets
    && DistinctKeys(s.cache)
    && (forall e | e in s.cache :: e.key.net == s.key.net && e.key.transport == s.key.transport)
    && (s.cacheClosed <==> s.closed) && (s.closed ==> s.cache == [])
    && (!s.closed ==> !s.c2s.closed && !s.s2c.closed)
    && s.firstSeen <= s.lastSeen
    && 0 <= s.c2s.bytes && 0 <= s.s2c.bytes
  }

  /** An open stream has not seen the end of both directions. */
  ghost predicate Healthy(s: StreamState) {
    Sound(s) && (!s.closed ==> !s.c2s.waitClose || !s.s2c.waitClose)
  }

  lemma OpenedHealthy(k: FlowKey, ts: int)
    ensures Healthy(Opened(k, ts))
  {
  }

  lemma CountedSound(s: StreamState, side: Side, p: Packet)
    requires Sound(s) && !s.closed && !side.Neither?
    ensures Sound(Counted(s, side, p))
  {
    ReverseTwice(s.key);
    if side.Client? {
      PushedKeeps(s.cache, SentKey(s.c2s.key, p), p.ts);
      PushedFrom(s.cache, SentKey(s.c2s.key, p), p.ts);
    } else {
      PulledShrinks(s.cache, AckedKey(s.s2c.key, p));
      PulledFrom(s.cache, AckedKey(s.s2c.key, p));
    }
  }

  lemma PulledFrom(s: seq<Entry>, key: RttKey)
    requires DistinctKeys(s)
    ensures forall e | e in Pulled(s, key).rest :: e in s
  {
    SweepShrinks(s, key);
  }

  /** `stat` leaves all but the counters, the samples and the cache alone. */
  lemma CountedFrame(s: StreamState, side: Side, p: Packet)
    requires !side.Neither?
    ensures var t := Counted(s, side, p);
      && t.key == s.key && t.closed == s.closed && t.cacheClosed == s.cacheClosed
      && t.firstSeen == s.firstSeen && t.lastSeen == s.lastSeen
      && t.c2s == (if side.Client? then Bumped(s.c2s, p) else s.c2s)
      && t.s2c == (if side.Server? then Bumped(s.s2c, p) else s.s2c)
  {
  }

  /** Every packet keeps the invariant. */
  lemma HandledHealthy(s: StreamState, p: Packet)
    requires Healthy(s)
    ensures Healthy(Handled(s, p))
  {
    var side := SideOf(s.key, p.key);
    if !s.closed && !side.Neither? {
      var t := Marked(Seen(s, p.ts), side, p);
      assert Sound(t);
      CountedSound(t, side, p);
      hide Counted;
      CountedFrame(t, side, p);
    }
  }

  lemma ShutHealthy(s: StreamState)
    requires Healthy(s)
    ensures Healthy(Shut(s))
  {
  }

  // ---------- when packets close a stream ----------

  function Run(s: StreamState, ps: seq<Packet>): StreamState
    decreases |ps|
  {
    if ps == [] then s else Run(Handled(s, ps[0]), ps[1..])
  }

  predicate SawEnd(ps: seq<Packet>, key: FlowKey) {
    exists i | 0 <= i < |ps| :: ps[i].key == key && ps[i].Ends()
  }

  /** The packets of one direction, up to and including the one that closes the stream. */
  function CountFor(ps: seq<Packet>, key: FlowKey): nat {
    if ps == [] then 0 else (if ps[0].key == key then 1 else 0) + CountFor(ps[1..], key)
  }

  lemma {:induction false} RunHealthy(s: StreamState, ps: seq<Packet>)
    requires Healthy(s)
    ensures Healthy(Run(s, ps)) && Run(s, ps).key == s.key
    decreases ps
  {
    if ps != [] {
      HandledHealthy(s, ps[0]);
      HandledKey(s, ps[0]);
      RunHealthy(Handled(s, ps[0]), ps[1..]);
    }
  }

  lemma HandledKey(s: StreamState, p: Packet)
    ensures Handled(s, p).key == s.key
  {
    var side := SideOf(s.key, p.key);
    if !s.closed && !side.Neither? {
      CountedFrame(Marked(Seen(s, p.ts), side, p), side, p);
    }
  }

  lemma {:induction false} ClosedForGood(s: StreamState, ps: seq<Packet>)
    requires s.closed
    ensures Run(s, ps) == s
    decreases ps
  {
    if ps != [] {
      ClosedForGood(s, ps[1..]);
    }
  }

  /** What one packet does to the end marks, as long as the stream is open. */
  lemma HandledMarks(s: StreamState, p: Packet)
    requires Healthy(s) && !s.closed && s.key != s.key.Reverse()
    ensures var t := Handled(s, p);
      && t.c2s.waitClose == (s.c2s.waitClose || (p.key == s.key && p.Ends()))
      && t.s2c.waitClose == (s.s2c.waitClose || (p.key == s.key.Reverse() && p.Ends()))
      && (t.closed <==> t.c2s.waitClose && t.s2c.waitClose)
      && t.c2s.packets == s.c2s.packets + (if p.key == s.key then 1 else 0)
      && t.s2c.packets == s.s2c.packets + (if p.key == s.key.Reverse() then 1 else 0)
  {
    var side := SideOf(s.key, p.key);
    if !side.Neither? {
      CountedFrame(Marked(Seen(s, p.ts), side, p), side, p);
      hide Counted;
    }
  }

  /**
     Packets alone close a stream exactly when both directions have seen FIN or RST; the packet that closes it
     and all before it are counted, and none later.
   */
  lemma {:induction false} ClosesOnSecondEnd(s: StreamState, ps: seq<Packet>)
    requires Healthy(s) && !s.closed && s.key != s.key.Reverse()
    ensures var t := Run(s, ps);
      && (t.closed <==> (s.c2s.waitClose || SawEnd(ps, s.key)) && (s.s2c.waitClose || SawEnd(ps, s.key.Reverse())))
      && (!t.closed ==> t.c2s.packets == s.c2s.packets + CountFor(ps, s.key)
                        && t.s2c.packets == s.s2c.packets + CountFor(ps, s.key.Reverse()))
    decreases ps
  {
    if ps != [] {
      var u := Handled(s, ps[0]);
      HandledMarks(s, ps[0]);
      HandledHealthy(s, ps[0]);
      HandledKey(s, ps[0]);
      SawEndStep(ps, s.key);
      SawEndStep(ps, s.key.Reverse());
      hide Handled;
      if u.closed {
        ClosedForGood(u, ps[1..]);
      } else {
        ClosesOnSecondEnd(u, ps[1..]);
      }
    }
  }

  lemma SawEndStep(ps: seq<Packet>, key: FlowKey)
    requires ps != []
    ensures SawEnd(ps, key) <==> (ps[0].key == key && ps[0].Ends()) || SawEnd(ps[1..], key)
  {
    if SawEnd(ps[1..], key) {
      var i :| 0 <= i < |ps[1..]| && ps[1..][i].key == key && ps[1..][i].Ends();
      assert ps[i + 1] == ps[1..][i];
    }
    if SawEnd(ps, key) && !(ps[0].key == key && ps[0].Ends()) {
      var i :| 0 <= i < |ps| && ps[i].key == key && ps[i].Ends();
      assert ps[1..][i - 1] == ps[i];
    }
  }

  /** A stream whose key is its own reverse only knows its server side, and packets never close it. */
  lemma {:induction false} SelfReverseStaysOpen(s: StreamState, ps: seq<Packet>)
    requires Healthy(s) && !s.closed && s.key == s.key.Reverse() && !s.c2s.waitClose
    ensures !Run(s, ps).closed && Run(s, ps).c2s == s.c2s
    decreases ps
  {
    if ps != [] {
      HandledHealthy(s, ps[0]);
      SelfReverseStep(s, ps[0]);
      SelfReverseStaysOpen(Handled(s, ps[0]), ps[1..]);
    }
  }

  lemma SelfReverseStep(s: StreamState, p: Packet)
    requires !s.closed && s.key == s.key.Reverse() && !s.c2s.waitClose
    ensures var t := Handled(s, p); !t.closed && t.key == s.key && t.c2s == s.c2s
  {
    var side := SideOf(s.key, p.key);
    if !side.Neither? {
      CountedFrame(Marked(Seen(s, p.ts), side, p), side, p);
    }
  }

  lemma {:induction false} RunSplit(s: StreamState, a: seq<Packet>, b: seq<Packet>)
    ensures Run(s, a + b) == Run(Run(s, a), b)
    decreases |a|
  {
    hide Handled;
    if a == [] {
      assert a + b == b;
    } else {
      assert (a + b)[0] == a[0] && (a + b)[1..] == a[1..] + b;
      RunSplit(Handled(s, a[0]), a[1..], b);
    }
  }

  lemma {:induction false} CountSplit(a: seq<Packet>, b: seq<Packet>, key: FlowKey)
    ensures CountFor(a + b, key) == CountFor(a, key) + CountFor(b, key)
  {
    if a == [] {
      assert a + b == b;
    } else {
      assert (a + b)[0] == a[0] && (a + b)[1..] == a[1..] + b;
      CountSplit(a[1..], b, key);
    }
  }

  /** The packet that closes a stream is still counted, and nothing after it is. */
  lemma ClosingPacketCounts(s: StreamState, before: seq<Packet>, p: Packet, after: seq<Packet>)
    requires Healthy(s) && s.key != s.key.Reverse()
    requires !s.closed && !Run(s, before).closed && Run(s, before + [p]).closed
    ensures var t := Run(s, before + [p] + after);
      && t == Run(s, before + [p])
      && t.c2s.packets == s.c2s.packets + CountFor(before + [p], s.key)
      && t.s2c.packets == s.s2c.packets + CountFor(before + [p], s.key.Reverse())
      && t.c2s.closed && t.s2c.closed
  {
    hide Handled;
    var u := Run(s, before);
    RunHealthy(s, before);
    RunSplit(s, before, [p]);
    RunSplit(s, before + [p], after);
    OnePacket(u, p);
    ClosedForGood(Handled(u, p), after);
    ClosesOnSecondEnd(s, before);
    HandledMarks(u, p);
    HandledCloses(u, p);
    CountSplit(before, [p], s.key);
    CountSplit(before, [p], s.key.Reverse());
  }

  lemma OnePacket(s: StreamState, p: Packet)
    ensures Run(s, [p]) == Handled(s, p)
    ensures forall key :: CountFor([p], key) == if p.key == key then 1 else 0
  {
    assert [p][1..] == [];
    assert Run(Handled(s, p), []) == Handled(s, p);
  }

  lemma HandledCloses(s: StreamState, p: Packet)
    requires !s.closed && Handled(s, p).closed
    ensures Handled(s, p).c2s.closed && Handled(s, p).s2c.closed
  {
    var side := SideOf(s.key, p.key);
    if !side.Neither? {
      CountedFrame(Marked(Seen(s, p.ts), side, p), side, p);
    }
  }

  /**
     Packets close a stream exactly when its key is not its own reverse and both directions have ended. So the rule
     of the source, to close once both have ended, fails exactly for a self-reverse key that has seen an end.
   */
  lemma ClosesExactly(k: FlowKey, ts: int, ps: seq<Packet>)
    ensures var closed := Run(Opened(k, ts), ps).closed;
      var ended := SawEnd(ps, k) && SawEnd(ps, k.Reverse());
      && (closed <==> k != k.Reverse() && ended)
      && ((closed <==> ended) <==> k != k.Reverse() || !SawEnd(ps, k))
  {
    hide Run, SawEnd;
    OpenedHealthy(k, ts);
    if k != k.Reverse() {
      ClosesOnSecondEnd(Opened(k, ts), ps);
    } else {
      SelfReverseStaysOpen(Opened(k, ts), ps);
    }
  }
}
