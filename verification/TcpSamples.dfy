/** The round-trip samples of a lifetime, and what their aggregates say about the average. */
module TcpSamples {
  import opened Bytes
  import opened RttModel
  import opened TcpModel

  /** The average sample lies between the extremes. */
  predicate Averaged(r: Rtts) {
    r.count > 0 ==> 0 <= r.min <= r.max && r.min * r.count <= r.total <= r.max * r.count
  }

  /** Fresh aggregates, or aggregates of samples that were not negative. */
  predicate Clean(r: Rtts) {
    Averaged(r) && r.count >= 0 && (r.count == 0 ==> r == NO_RTTS)
  }

  lemma SampledAverages(r: Rtts, rtt: int)
    requires Clean(r)
    ensures rtt >= 0 ==> Clean(Sampled(r, rtt))
  {
    if rtt >= 0 && r.count > 0 {
      var s := Sampled(r, rtt);
      Below(s.min, r.min, r.count, r.total, rtt);
      Above(s.max, r.max, r.count, r.total, rtt);
    }
  }

  lemma Below(low: int, min: int, n: nat, total: int, x: int)
    requires low <= min && low <= x && min * n <= total
    ensures low * (n + 1) <= total + x
  {
    Scale(low, min, n);
    assert low * (n + 1) == low * n + low;
  }

  lemma Above(high: int, max: int, n: nat, total: int, x: int)
    requires max <= high && x <= high && total <= max * n
    ensures total + x <= high * (n + 1)
  {
    Scale(max, high, n);
    assert high * (n + 1) == high * n + high;
  }

  lemma Scale(a: int, b: int, n: nat)
    requires a <= b
    ensures a * n <= b * n
  {
  }

  /** The round-trip sample that a packet yields. */
  function SampleOf(s: StreamState, p: Packet): Option<int> {
    if s.closed || !SideOf(s.key, p.key).Server? || s.s2c.closed then None
    else match Pulled(s.cache, AckedKey(s.s2c.key, p)).value
      case None => None
      case Some(e) => Some(Quot(p.ts - e.seen, 1000))
  }

  /** Samples are whole microseconds: the division of Go drops the rest, whatever the sign. */
  lemma QuotTruncates(a: int, b: int)
    requires b > 0
    ensures var q := Quot(a, b);
      if a >= 0 then q >= 0 && q * b <= a < q * b + b else q <= 0 && q * b - b < a <= q * b
  {
    Quotient(if a >= 0 then a else -a, b);
    Negated(-a / b, b);
  }

  lemma Quotient(n: nat, b: int)
    requires b > 0
    ensures n / b >= 0 && n / b * b <= n < n / b * b + b
  {
    assert n == n / b * b + n % b;
  }

  lemma Negated(r: int, b: int)
    ensures (-r) * b == -(r * b)
  {
  }

  lemma HandledSamples(s: StreamState, p: Packet)
    ensures Handled(s, p).rtts == match SampleOf(s, p) case None => s.rtts case Some(rtt) => Sampled(s.rtts, rtt)
  {
    hide Sampled, Pulled, Pushed;
  }

  // ---------- the samples of a run ----------

  /** The samples of a run, in order. */
  function Samples(s: StreamState, ps: seq<Packet>): seq<int>
    decreases |ps|
  {
    if ps == [] then []
    else
      var rest := Samples(Handled(s, ps[0]), ps[1..]);
      match SampleOf(s, ps[0])
      case None => rest
      case Some(rtt) => [rtt] + rest
  }

  function Aggregate(r: Rtts, xs: seq<int>): Rtts
    decreases |xs|
  {
    if xs == [] then r else Aggregate(Sampled(r, xs[0]), xs[1..])
  }

  /** The aggregates of a run are those of its samples. */
  lemma {:induction false} RunAggregates(s: StreamState, ps: seq<Packet>)
    ensures Run(s, ps).rtts == Aggregate(s.rtts, Samples(s, ps))
    decreases |ps|
  {
    if ps != [] {
      hide Handled, Sampled, SampleOf;
      HandledSamples(s, ps[0]);
      var next := Handled(s, ps[0]);
      RunAggregates(next, ps[1..]);
      if SampleOf(s, ps[0]).Some? {
        AggregateCons(s.rtts, SampleOf(s, ps[0]).value, Samples(next, ps[1..]));
      }
    }
  }

  lemma AggregateCons(r: Rtts, x: int, xs: seq<int>)
    ensures Aggregate(r, [x] + xs) == Aggregate(Sampled(r, x), xs)
  {
    assert ([x] + xs)[1..] == xs;
  }

  lemma {:induction false} AggregateSnoc(r: Rtts, xs: seq<int>, x: int)
    ensures Aggregate(r, xs + [x]) == Sampled(Aggregate(r, xs), x)
    decreases |xs|
  {
    hide Sampled;
    if xs == [] {
      AggregateCons(r, x, []);
      assert [] + [x] == [x] + [];
    } else {
      assert (xs + [x])[0] == xs[0] && (xs + [x])[1..] == xs[1..] + [x];
      AggregateSnoc(Sampled(r, xs[0]), xs[1..], x);
    }
  }

  lemma {:induction false} AggregateClean(r: Rtts, xs: seq<int>)
    requires Clean(r) && forall x | x in xs :: x >= 0
    ensures Clean(Aggregate(r, xs))
    decreases |xs|
  {
    if xs != [] {
      SampledAverages(r, xs[0]);
      hide Sampled, Clean;
      assert xs[0] in xs && forall x | x in xs[1..] :: x in xs;
      AggregateClean(Sampled(r, xs[0]), xs[1..]);
    }
  }

  /** In a run without negative samples the average stays between the extremes. */
  lemma RunAverages(s: StreamState, ps: seq<Packet>)
    requires Clean(s.rtts) && forall x | x in Samples(s, ps) :: x >= 0
    ensures Clean(Run(s, ps).rtts)
  {
    RunAggregates(s, ps);
    AggregateClean(s.rtts, Samples(s, ps));
  }

  // ---------- the exact condition ----------

  /** The samples that are aggregated. */
  function Usable(xs: seq<int>): seq<int> {
    if xs == [] then []
    else Usable(xs[..|xs| - 1]) + if xs[|xs| - 1] >= 0 then [xs[|xs| - 1]] else []
  }

  function Least(xs: seq<int>): int {
    if xs == [] then MAX_INT64
    else
      var least := Least(xs[..|xs| - 1]);
      if xs[|xs| - 1] < least then xs[|xs| - 1] else least
  }

  function Greatest(xs: seq<int>): int {
    if xs == [] then MIN_INT64
    else
      var greatest := Greatest(xs[..|xs| - 1]);
      if xs[|xs| - 1] > greatest then xs[|xs| - 1] else greatest
  }

  function Total(xs: seq<int>): int {
    if xs == [] then 0 else Total(xs[..|xs| - 1]) + xs[|xs| - 1]
  }

  /** `Least` and `Greatest` bound the samples, and are samples unless no sample fits 64 bits. */
  lemma {:induction false} Bounds(xs: seq<int>)
    ensures forall x | x in xs :: Least(xs) <= x <= Greatest(xs)
    ensures Least(xs) == MAX_INT64 || Least(xs) in xs
    ensures Greatest(xs) == MIN_INT64 || Greatest(xs) in xs
    decreases |xs|
  {
    if xs != [] {
      Bounds(xs[..|xs| - 1]);
      assert xs == xs[..|xs| - 1] + [xs[|xs| - 1]];
    }
  }

  lemma UsableSnoc(xs: seq<int>, x: int)
    ensures Usable(xs + [x]) == if x >= 0 then Usable(xs) + [x] else Usable(xs)
  {
    assert (xs + [x])[..|xs|] == xs;
  }

  lemma StatsSnoc(xs: seq<int>, x: int)
    ensures Least(xs + [x]) == if x < Least(xs) then x else Least(xs)
    ensures Greatest(xs + [x]) == if x > Greatest(xs) then x else Greatest(xs)
    ensures Total(xs + [x]) == Total(xs) + x
  {
    assert (xs + [x])[..|xs|] == xs;
  }

  /** Every sample is counted; only those that are not negative are aggregated. */
  lemma {:induction false} AggregateIs(xs: seq<int>)
    ensures var r := Aggregate(NO_RTTS, xs);
      var kept := Usable(xs);
      && r.count == |xs| && |kept| <= |xs|
      && r.min == Least(kept) && r.max == Greatest(kept) && r.total == Total(kept)
      && r.syn == (if xs != [] && xs[0] >= 0 then xs[0] else -1)
      && forall x | x in kept :: x >= 0
    decreases |xs|
  {
    if xs != [] {
      var n := |xs| - 1;
      var init, x := xs[..n], xs[n];
      assert xs == init + [x];
      AggregateIs(init);
      AggregateSnoc(NO_RTTS, init, x);
      UsableSnoc(init, x);
      StatsSnoc(Usable(init), x);
      hide Aggregate, Usable, Least, Greatest, Total;
    }
  }

  /** The total of samples that are not negative lies between the extremes, each taken as often as there are samples. */
  lemma {:induction false} TotalBetween(xs: seq<int>)
    requires xs != [] && forall x | x in xs :: x >= 0
    ensures 0 <= Least(xs) <= Greatest(xs)
    ensures Least(xs) * |xs| <= Total(xs) <= Greatest(xs) * |xs|
    decreases |xs|
  {
    var n := |xs| - 1;
    var init, x := xs[..n], xs[n];
    assert xs == init + [x] && x in xs && forall y | y in init :: y in xs;
    StatsSnoc(init, x);
    if n > 0 {
      TotalBetween(init);
      Below(Least(xs), Least(init), n, Total(init), x);
      Above(Greatest(xs), Greatest(init), n, Total(init), x);
    } else {
      assert init == [];
    }
  }

  /**
     The average over all counted samples lies between the extremes of the aggregated ones exactly when there are
     no samples, or when some sample is not negative and the least of those, taken for every sample, does not
     exceed their total.
   */
  lemma AverageExact(k: FlowKey, ts: int, ps: seq<Packet>)
    ensures var xs := Samples(Opened(k, ts), ps);
      var kept := Usable(xs);
      Averaged(Run(Opened(k, ts), ps).rtts)
      <==> xs == [] || (kept != [] && Least(kept) * |xs| <= Total(kept))
  {
    var xs := Samples(Opened(k, ts), ps);
    var kept := Usable(xs);
    RunAggregates(Opened(k, ts), ps);
    AggregateIs(xs);
    if kept != [] {
      TotalBetween(kept);
      Scale2(Greatest(kept), |kept|, |xs|);
    }
  }

  lemma Scale2(a: int, m: nat, n: nat)
    requires 0 <= a && m <= n
    ensures a * m <= a * n
  {
  }

  // ---------- a run in which the average falls below the least sample ----------

  const FLOW := FlowKey(Flow(1, 2), Flow(3, 4))

  /** The first packet of a connection. */
  function First(key: FlowKey, seqno: int, ts: int): Packet {
    Packet(key, true, false, false, false, false, seqno, 0, 0, ts)
  }

  function Empty(key: FlowKey, seqno: int, ack: int, ts: int): Packet {
    Packet(key, false, true, false, false, false, seqno, ack, 0, ts)
  }

  /** A SYN and another packet, and their acknowledgements; the second is stamped before the packet it acknowledges. */
  const LATE: seq<Packet> := [
    First(FLOW, 10, 0), Empty(FLOW.Reverse(), 0, 11, 5000),
    Empty(FLOW, 20, 0, 9000), Empty(FLOW.Reverse(), 0, 21, 8000)]

  function Sent(seqno: int, ts: int): Entry {
    Entry(RttKey(FLOW.net, FLOW.transport, seqno), ts)
  }

  /** A packet of the client, while nothing is remembered. */
  lemma ClientStep(s: StreamState, p: Packet)
    requires !s.closed && s.key == FLOW && s.c2s.key == FLOW && !s.c2s.closed && s.cache == []
    requires p.key == FLOW && p.size == 0 && !p.Ends()
    ensures var t := Handled(s, p);
      && !t.closed && t.key == FLOW && t.c2s.key == FLOW && !t.c2s.closed && t.s2c == s.s2c
      && t.rtts == s.rtts && t.cache == [Sent(p.seqno + 1, p.ts)]
    ensures SampleOf(s, p) == None
  {
  }

  /** Its acknowledgement. */
  lemma ServerStep(s: StreamState, seqno: int, sent: int, ts: int)
    requires !s.closed && s.key == FLOW && s.s2c.key == FLOW.Reverse() && !s.s2c.closed
    requires s.cache == [Sent(seqno, sent)]
    ensures var t := Handled(s, Empty(FLOW.Reverse(), 0, seqno, ts));
      && !t.closed && t.key == FLOW && t.c2s == s.c2s && t.s2c.key == FLOW.Reverse() && !t.s2c.closed
      && t.cache == []
    ensures SampleOf(s, Empty(FLOW.Reverse(), 0, seqno, ts)) == Some(Quot(ts - sent, 1000))
  {
    var key := AckedKey(s.s2c.key, Empty(FLOW.Reverse(), 0, seqno, ts));
    assert key == Sent(seqno, sent).key;
    assert Find(s.cache, key) == 0;
    assert s.cache[1..] == [];
  }

  /** A negative sample is counted but not summed: the samples are 5 and -1, and their average falls below 5. */
  lemma LateStampBreaksAverage()
    ensures Samples(Opened(FLOW, 0), LATE) == [5, -1]
    ensures !Averaged(Run(Opened(FLOW, 0), LATE).rtts) && !Run(Opened(FLOW, 0), LATE).closed
  {
    hide Run, Samples, Averaged;
    LateSamples();
    AverageExact(FLOW, 0, LATE);
    NoEnds(FLOW, 0, LATE);
    assert [5, -1] == [] + [5] + [-1];
    UsableSnoc([], 5);
    UsableSnoc([5], -1);
    StatsSnoc([], 5);
  }

  lemma LateSamples()
    ensures Samples(Opened(FLOW, 0), LATE) == [5, -1]
  {
    hide Handled, SampleOf;
    var s0 := Opened(FLOW, 0);
    var s1 := Handled(s0, LATE[0]);
    ClientStep(s0, LATE[0]);
    ServerStep(s1, 11, 0, 5000);
    var t2 := Handled(s1, LATE[1]);
    ClientStep(t2, LATE[2]);
    var t3 := Handled(t2, LATE[2]);
    ServerStep(t3, 21, 9000, 8000);
    FourSamples(s0, LATE[0], LATE[1], LATE[2], LATE[3]);
  }

  lemma FourSamples(s: StreamState, a: Packet, b: Packet, c: Packet, d: Packet)
    requires SampleOf(s, a) == None
    requires SampleOf(Handled(s, a), b).Some?
    requires SampleOf(Handled(Handled(s, a), b), c) == None
    requires SampleOf(Handled(Handled(Handled(s, a), b), c), d).Some?
    ensures Samples(s, [a, b, c, d])
            == [SampleOf(Handled(s, a), b).value, SampleOf(Handled(Handled(Handled(s, a), b), c), d).value]
  {
    hide Handled, SampleOf;
    var s1 := Handled(s, a);
    var s2 := Handled(s1, b);
    var s3 := Handled(s2, c);
    Unrolled(s3, d, []);
    Unrolled(s2, c, [d]);
    Unrolled(s1, b, [c, d]);
    Unrolled(s, a, [b, c, d]);
    assert [a] + [b, c, d] == [a, b, c, d] && [b] + [c, d] == [b, c, d] && [c] + [d] == [c, d] && [d] + [] == [d];
  }

  lemma Unrolled(s: StreamState, p: Packet, ps: seq<Packet>)
    ensures Samples(s, [p] + ps) ==
      (if SampleOf(s, p).Some? then [SampleOf(s, p).value] else []) + Samples(Handled(s, p), ps)
  {
    hide Handled, SampleOf;
    assert ([p] + ps)[1..] == ps;
  }

  /** Packets without FIN or RST leave a stream open. */
  lemma NoEnds(k: FlowKey, ts: int, ps: seq<Packet>)
    requires forall p | p in ps :: !p.Ends()
    ensures !Run(Opened(k, ts), ps).closed
  {
    hide Run;
    ClosesExactly(k, ts, ps);
  }
}
