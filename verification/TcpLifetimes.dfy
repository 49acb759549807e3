/** The lifetime of a stream in the pool is the run of its own packets since the SYN that opened it. */
module TcpLifetimes {
  import opened TcpModel
  import opened TcpLedger
  import opened TcpPool
  import opened TcpRuns

  // ---------- when a stream was last seen ----------

  predicate Own(p: Packet, k: FlowKey) {
    p.key == k || p.key == k.Reverse()
  }

  /** `t` is the greatest of `from` and the stamps of the packets of flow `k`, in either direction. */
  predicate IsLatest(t: int, from: int, ps: seq<Packet>, k: FlowKey) {
    && t >= from && (forall p | p in ps && Own(p, k) :: t >= p.ts)
    && (t == from || exists p :: p in ps && Own(p, k) && p.ts == t)
  }

  lemma SeenStep(s: StreamState, p: Packet)
    requires !s.closed
    ensures Handled(s, p).lastSeen == if Own(p, s.key) && p.ts > s.lastSeen then p.ts else s.lastSeen
    ensures Handled(s, p).key == s.key && Handled(s, p).firstSeen == s.firstSeen
  {
    var side := SideOf(s.key, p.key);
    if !side.Neither? {
      CountedFrame(Marked(Seen(s, p.ts), side, p), side, p);
      hide Counted;
    }
  }

  /** A stream was last seen at the latest of its packets, however they are stamped. */
  lemma {:induction false} LastSeen(s: StreamState, ps: seq<Packet>)
    requires !Run(s, ps).closed
    ensures Run(s, ps).firstSeen == s.firstSeen
    ensures IsLatest(Run(s, ps).lastSeen, s.lastSeen, ps, s.key)
    decreases |ps|
  {
    if ps != [] {
      var p := ps[0];
      var t := Handled(s, p);
      if s.closed {
        ClosedForGood(s, ps);
      }
      SeenStep(s, p);
      hide Handled;
      LastSeen(t, ps[1..]);
      assert ps == [p] + ps[1..];
    }
  }

  // ---------- what a stream counts ----------

  /** The bytes that the packets of one direction carry. */
  function SizeFor(ps: seq<Packet>, key: FlowKey): nat {
    if ps == [] then 0 else (if ps[0].key == key then ps[0].size else 0) + SizeFor(ps[1..], key)
  }

  lemma CountStep(s: StreamState, p: Packet)
    requires Healthy(s) && !s.closed && s.key != s.key.Reverse()
    ensures var t := Handled(s, p);
      && t.c2s.bytes == s.c2s.bytes + (if p.key == s.key then p.size else 0)
      && t.s2c.bytes == s.s2c.bytes + (if p.key == s.key.Reverse() then p.size else 0)
  {
    var side := SideOf(s.key, p.key);
    if !side.Neither? {
      CountedFrame(Marked(Seen(s, p.ts), side, p), side, p);
      hide Counted;
    }
  }

  lemma {:induction false} BytesCounted(s: StreamState, ps: seq<Packet>)
    requires Healthy(s) && !Run(s, ps).closed && s.key != s.key.Reverse()
    ensures Run(s, ps).c2s.bytes == s.c2s.bytes + SizeFor(ps, s.key)
    ensures Run(s, ps).s2c.bytes == s.s2c.bytes + SizeFor(ps, s.key.Reverse())
    decreases |ps|
  {
    if s.closed {
      ClosedForGood(s, ps);
    }
    if ps != [] {
      CountStep(s, ps[0]);
      HandledHealthy(s, ps[0]);
      HandledKey(s, ps[0]);
      hide Handled;
      BytesCounted(Handled(s, ps[0]), ps[1..]);
    }
  }

  /** What a lifetime adds to its interface: as sent what the client sent, as received what the server did. */
  lemma CountsAre(k: FlowKey, ts: int, ps: seq<Packet>)
    requires k != k.Reverse() && !Run(Opened(k, ts), ps).closed
    ensures Counts(Run(Opened(k, ts), ps))
         == Totals(SizeFor(ps, k), CountFor(ps, k), SizeFor(ps, k.Reverse()), CountFor(ps, k.Reverse()))
  {
    OpenedHealthy(k, ts);
    BytesCounted(Opened(k, ts), ps);
    ClosesOnSecondEnd(Opened(k, ts), ps);
  }

  // ---------- in the pool ----------

  /** The packets of a history that belong to flow `k`, in either direction. */
  function PacketsOf(es: seq<Event>, k: FlowKey): seq<Packet> {
    if es == [] then []
    else (if es[0].Arrives? && Own(es[0].p, k) then [es[0].p] else []) + PacketsOf(es[1..], k)
  }

  lemma {:induction false} PacketsSplit(a: seq<Event>, b: seq<Event>, k: FlowKey)
    ensures PacketsOf(a + b, k) == PacketsOf(a, k) + PacketsOf(b, k)
    decreases |a|
  {
    hide Own;
    if a == [] {
      assert a + b == b;
    } else {
      assert (a + b)[0] == a[0] && (a + b)[1..] == a[1..] + b;
      PacketsSplit(a[1..], b, k);
    }
  }

  lemma OneEvent(e: Event, k: FlowKey)
    ensures PacketsOf([e], k) == if e.Arrives? && Own(e.p, k) then [e.p] else []
  {
    assert [e][1..] == [];
  }

  lemma {:induction false} EventsSnoc(current: map<FlowKey, Use>, es: seq<Event>, e: Event)
    ensures RunEvents(current, es + [e]) == After(RunEvents(current, es), e)
    decreases |es|
  {
    hide After;
    if es == [] {
      assert [] + [e] == [e] && [e][1..] == [];
      assert RunEvents(After(current, e), []) == After(current, e);
    } else {
      assert (es + [e])[0] == es[0] && (es + [e])[1..] == es[1..] + [e];
      EventsSnoc(After(current, es[0]), es[1..], e);
    }
  }

  predicate FirstSyn(e: Event, k: FlowKey) {
    e.Arrives? && e.p.key == k && e.p.syn && !e.p.ackFlag && !e.p.fin && !e.p.rst
  }

  /** Event `i` opened the stream that is filed under `k`, and its own packets since made it what it is. */
  ghost predicate Lifetime(es: seq<Event>, i: nat, k: FlowKey) {
    && i < |es| && FirstSyn(es[i], k) && k in RunEvents(map[], es)
    && RunEvents(map[], es)[k] == Use(es[i].stat, Run(Opened(k, es[i].p.ts), PacketsOf(es[i..], k)))
  }

  /** What one event does to the stream filed under `k`, if it is in use afterwards. */
  lemma EventStep(current: map<FlowKey, Use>, e: Event, k: FlowKey)
    requires Orderly(current) && k in After(current, e)
    ensures var own := e.Arrives? && Own(e.p, k);
      && (k !in current ==> FirstSyn(e, k)
                            && After(current, e)[k] == Use(e.stat, Handled(Opened(k, e.p.ts), e.p)))
      && (k in current ==>
            After(current, e)[k] == if own then Use(current[k].stat, Handled(current[k].state, e.p)) else current[k])
  {
    ReverseTwice(k);
    if e.Arrives? {
      ReverseTwice(e.p.key);
      hide Handled, Opened, Healthy;
    }
  }

  /** Every stream in use is what its own packets have made of it since the first SYN that opened it. */
  lemma {:induction false} LifetimeOf(es: seq<Event>, k: FlowKey) returns (i: nat)
    requires k in RunEvents(map[], es)
    ensures Lifetime(es, i, k)
    decreases |es|
  {
    var n := |es| - 1;
    var init, e := es[..n], es[n];
    assert es == init + [e];
    EventsSnoc(map[], init, e);
    RunOrderly(map[], init);
    EventStep(RunEvents(map[], init), e, k);
    OneEvent(e, k);
    hide After, RunEvents, Orderly, Own, Handled, Opened, Run;
    if k in RunEvents(map[], init) {
      i := LifetimeOf(init, k);
      LifetimeGoesOn(init, e, i, k);
    } else {
      i := n;
      assert es[n..] == [e];
      FirstSynOwns(e, k);
      OnePacket(Opened(k, e.p.ts), e.p);
    }
  }

  lemma LifetimeGoesOn(es: seq<Event>, e: Event, i: nat, k: FlowKey)
    requires Lifetime(es, i, k) && k in RunEvents(map[], es + [e])
    ensures Lifetime(es + [e], i, k)
  {
    EventsSnoc(map[], es, e);
    RunOrderly(map[], es);
    EventStep(RunEvents(map[], es), e, k);
    OneEvent(e, k);
    hide After, RunEvents, Orderly, Own, Handled, Opened, Run;
    assert (es + [e])[i..] == es[i..] + [e] && (es + [e])[i] == es[i];
    PacketsSplit(es[i..], [e], k);
    OneMore(Opened(k, es[i].p.ts), PacketsOf(es[i..], k), PacketsOf([e], k));
  }

  lemma FirstSynOwns(e: Event, k: FlowKey)
    requires FirstSyn(e, k)
    ensures Own(e.p, k)
  {
  }

  lemma OneMore(s: StreamState, ps: seq<Packet>, more: seq<Packet>)
    requires |more| <= 1
    ensures Run(s, ps + more) == if more == [] then Run(s, ps) else Handled(Run(s, ps), more[0])
  {
    if more == [] {
      assert ps + more == ps;
    } else {
      assert more == [more[0]];
      RunSplit(s, ps, more);
      OnePacket(Run(s, ps), more[0]);
    }
  }

  /** A first SYN of a flow that is not in use opens a stream for it. */
  lemma FirstSynOpens(es: seq<Event>, e: Event, k: FlowKey)
    requires k !in RunEvents(map[], es) && k.Reverse() !in RunEvents(map[], es) && FirstSyn(e, k)
    ensures Lifetime(es + [e], |es|, k)
  {
    var current := RunEvents(map[], es);
    EventsSnoc(map[], es, e);
    OneEvent(e, k);
    assert (es + [e])[|es|..] == [e];
    OnePacket(Opened(k, e.p.ts), e.p);
    OpenedStays(k, e.p);
    hide Handled, Opened, RunEvents, Run;
    assert k in After(current, e);
  }

  lemma OpenedStays(k: FlowKey, p: Packet)
    requires !p.fin && !p.rst
    ensures !Handled(Opened(k, p.ts), p).closed
  {
    ClosesExactly(k, p.ts, [p]);
    OnePacket(Opened(k, p.ts), p);
  }

  /** Some packet of flow `k` since event `i` is stamped at or after `t`; the SYN that opened the stream counts. */
  predicate SeenSince(es: seq<Event>, i: nat, k: FlowKey, t: int)
    requires i <= |es|
  {
    exists p :: p in PacketsOf(es[i..], k) && p.ts >= t
  }

  lemma {:induction false} OwnPackets(es: seq<Event>, k: FlowKey)
    ensures forall p | p in PacketsOf(es, k) :: Own(p, k)
    decreases |es|
  {
    hide Own;
    if es != [] {
      OwnPackets(es[1..], k);
    }
  }

  lemma SynFirst(es: seq<Event>, i: nat, k: FlowKey)
    requires i < |es| && FirstSyn(es[i], k)
    ensures es[i].p in PacketsOf(es[i..], k)
  {
    assert es[i..][0] == es[i];
  }

  /** A stream in use was last seen at the latest of its own packets since it was opened. */
  lemma SeenInPool(es: seq<Event>, i: nat, k: FlowKey, t: int)
    requires Lifetime(es, i, k)
    ensures RunEvents(map[], es)[k].state.lastSeen >= t <==> SeenSince(es, i, k, t)
    ensures RunEvents(map[], es)[k].state.firstSeen == es[i].p.ts
  {
    hide Run, After, Own, Healthy;
    RunOrderly(map[], es);
    var ps, ts := PacketsOf(es[i..], k), es[i].p.ts;
    LastSeen(Opened(k, ts), ps);
    OwnPackets(es[i..], k);
    SynFirst(es, i, k);
    var seen := Run(Opened(k, ts), ps).lastSeen;
    if seen >= t {
      assert exists p :: p in ps && p.ts == seen;
    }
  }

  /**
     A flush closes a stream, and so does a timer tick two minutes (in nanoseconds) later, exactly when none of its
     packets, the SYN that opened it included, is stamped at or after `t`.
   */
  lemma StaysWhenSeen(es: seq<Event>, i: nat, k: FlowKey, t: int)
    requires Lifetime(es, i, k)
    ensures k in RunEvents(map[], es + [Flushes(t)]) <==> SeenSince(es, i, k, t)
    ensures k in RunEvents(map[], es + [Ticks(k, t + 120_000_000_000)]) <==> SeenSince(es, i, k, t)
  {
    SeenInPool(es, i, k, t);
    EventsSnoc(map[], es, Flushes(t));
    EventsSnoc(map[], es, Ticks(k, t + 120_000_000_000));
    hide SeenSince, RunEvents;
  }

  /** What the lifetime of a stream in use has added to its interface: the packets of the client, and of the server. */
  lemma LifetimeCounts(es: seq<Event>, i: nat, k: FlowKey)
    requires Lifetime(es, i, k) && k != k.Reverse()
    ensures var ps := PacketsOf(es[i..], k);
      Counts(RunEvents(map[], es)[k].state)
      == Totals(SizeFor(ps, k), CountFor(ps, k), SizeFor(ps, k.Reverse()), CountFor(ps, k.Reverse()))
  {
    hide Run, After, Healthy, SizeFor, CountFor, Counts;
    RunOrderly(map[], es);
    CountsAre(k, es[i].p.ts, PacketsOf(es[i..], k));
  }
}
