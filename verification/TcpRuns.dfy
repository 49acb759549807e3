/** Whole histories of the pool, as values: packets, timer ticks and flushes in any order. */
module TcpRuns {
  import opened Bytes
  import opened RttModel
  import opened TcpModel
  import opened TcpSamples
  import opened TcpStreams
  import opened TcpPool

  datatype Event = Arrives(stat: Stats, p: Packet) | Ticks(k: FlowKey, now: int) | Flushes(t: int)

  function After(current: map<FlowKey, Use>, e: Event): map<FlowKey, Use> {
    match e
    case Arrives(stat, p) => Assembled(current, stat, p)
    case Ticks(k, now) =>
      if k in current && current[k].state.lastSeen < now - TIMEOUT then current - {k} else current
    case Flushes(t) => Kept(current, t, current.Keys)
  }

  function RunEvents(current: map<FlowKey, Use>, es: seq<Event>): map<FlowKey, Use>
    decreases |es|
  {
    if es == [] then current else RunEvents(After(current, es[0]), es[1..])
  }

  /** Every stream in use is open, healthy and filed under its key, and none is filed under the reverse of another. */
  ghost predicate Orderly(current: map<FlowKey, Use>) {
    && (forall k | k in current :: Healthy(current[k].state) && !current[k].state.closed && current[k].state.key == k)
    && (forall k | k in current && k.Reverse() in current :: k.Reverse() == k)
  }

  lemma LocatedOrderly(current: map<FlowKey, Use>, k: FlowKey, stat: Stats, end: bool, syn: bool, ts: int)
    requires Orderly(current)
    ensures Orderly(Located(current, k, stat, end, syn, ts))
  {
    OpenedHealthy(k, ts);
    ReverseTwice(k);
    var after := Located(current, k, stat, end, syn, ts);
    forall l | l in after && l.Reverse() in after ensures l.Reverse() == l {
      ReverseTwice(l);
    }
  }

  lemma DispatchedOrderly(current: map<FlowKey, Use>, k: FlowKey, p: Packet)
    requires Orderly(current) && k in current
    ensures Orderly(Dispatched(current, k, p))
  {
    HandledHealthy(current[k].state, p);
    HandledKey(current[k].state, p);
    hide Handled, Healthy;
  }

  lemma AfterOrderly(current: map<FlowKey, Use>, e: Event)
    requires Orderly(current)
    ensures Orderly(After(current, e))
  {
    hide Healthy;
    match e
    case Arrives(stat, p) =>
      hide Orderly, Located, Dispatched;
      LocatedOrderly(current, p.key, stat, p.Ends(), p.syn && !p.ackFlag, p.ts);
      var located := Located(current, p.key, stat, p.Ends(), p.syn && !p.ackFlag, p.ts);
      if Owner(located, p.key).Some? {
        DispatchedOrderly(located, Owner(located, p.key).value, p);
      }
    case Ticks(k, now) =>
    case Flushes(t) =>
  }

  /** In every history the streams in use stay orderly. */
  lemma {:induction false} RunOrderly(current: map<FlowKey, Use>, es: seq<Event>)
    requires Orderly(current)
    ensures Orderly(RunEvents(current, es))
    decreases |es|
  {
    if es != [] {
      hide Orderly, After;
      AfterOrderly(current, es[0]);
      RunOrderly(After(current, es[0]), es[1..]);
    }
  }

  /** In every history from an empty pool, samples and remembered packets are covered by the client's packets. */
  lemma SamplesCovered(es: seq<Event>, k: FlowKey)
    requires k in RunEvents(map[], es)
    ensures var s := RunEvents(map[], es)[k].state;
      && s.rtts.count + |s.cache| <= s.c2s.packets
      && !s.cacheClosed
      && DistinctKeys(s.cache)
  {
    RunOrderly(map[], es);
  }

  // ---------- one stream in the pool ----------

  function Arrivals(stat: Stats, ps: seq<Packet>): seq<Event> {
    if ps == [] then [] else [Arrives(stat, ps[0])] + Arrivals(stat, ps[1..])
  }

  /** A stream that its packets do not close has, in the pool, the state that they give it. */
  lemma {:induction false} ArrivalsRun(stat: Stats, k: FlowKey, s: StreamState, ps: seq<Packet>)
    requires forall p | p in ps :: p.key == k || p.key == k.Reverse()
    requires !Run(s, ps).closed
    ensures RunEvents(map[k := Use(stat, s)], Arrivals(stat, ps)) == map[k := Use(stat, Run(s, ps))]
    decreases |ps|
  {
    if ps != [] {
      var p := ps[0];
      var t := Handled(s, p);
      assert p in ps && forall q | q in ps[1..] :: q in ps;
      if t.closed {
        ClosedForGood(t, ps[1..]);
      }
      OwnArrival(stat, k, s, p);
      hide Handled, After;
      ArrivalsRun(stat, k, t, ps[1..]);
      assert Arrivals(stat, ps)[1..] == Arrivals(stat, ps[1..]);
    }
  }

  lemma OwnArrival(stat: Stats, k: FlowKey, s: StreamState, p: Packet)
    requires p.key == k || p.key == k.Reverse()
    requires !Handled(s, p).closed
    ensures After(map[k := Use(stat, s)], Arrives(stat, p)) == map[k := Use(stat, Handled(s, p))]
  {
    hide Handled;
    ReverseTwice(k);
    var current := map[k := Use(stat, s)];
    assert Owner(current, p.key) == Some(k);
    assert current[k := Use(stat, Handled(s, p))] == map[k := Use(stat, Handled(s, p))];
  }

  /** A stream that its first SYN opens, in an empty pool. */
  lemma FromFirstSyn(stat: Stats, ps: seq<Packet>)
    requires ps != [] && ps[0].syn && !ps[0].ackFlag && !ps[0].Ends()
    requires forall p | p in ps :: p.key == ps[0].key || p.key == ps[0].key.Reverse()
    requires !Run(Opened(ps[0].key, ps[0].ts), ps).closed
    ensures RunEvents(map[], Arrivals(stat, ps))
            == map[ps[0].key := Use(stat, Run(Opened(ps[0].key, ps[0].ts), ps))]
  {
    var k, first := ps[0].key, Use(stat, Opened(ps[0].key, ps[0].ts));
    ArrivalsRun(stat, k, first.state, ps);
    hide Handled, Run, Dispatched, Opened;
    var none: map<FlowKey, Use> := map[];
    assert Owner(none, k) == None;
    assert none[k := first] == map[k := first];
    assert After(map[], Arrives(stat, ps[0])) == After(map[k := first], Arrives(stat, ps[0]));
  }

  /** A history in which the average of a stream in use falls below its least sample. */
  lemma LateStampInPool(stat: Stats)
    ensures var current := RunEvents(map[], Arrivals(stat, LATE));
      FLOW in current && !Averaged(current[FLOW].state.rtts)
  {
    LateStampBreaksAverage();
    hide Run, Averaged;
    FromFirstSyn(stat, LATE);
  }

  const LOOP := FlowKey(Flow(1, 1), Flow(2, 2))

  /** A SYN and a FIN on a flow that is its own reverse: both directions have ended, and the stream is still in use. */
  const LOOPED: seq<Packet> := [
    First(LOOP, 10, 0), Packet(LOOP, false, true, true, false, false, 11, 0, 0, 1)]

  lemma SelfReverseInPool(stat: Stats)
    ensures SawEnd(LOOPED, LOOP) && SawEnd(LOOPED, LOOP.Reverse())
    ensures LOOP in RunEvents(map[], Arrivals(stat, LOOPED))
  {
    assert LOOPED[1].key == LOOP == LOOP.Reverse() && LOOPED[1].Ends();
    ClosesExactly(LOOP, 0, LOOPED);
    hide Run;
    FromFirstSyn(stat, LOOPED);
  }
}
