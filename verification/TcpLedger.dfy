/** The account of all lifetimes of all streams, against which the counters of an interface are checked. */
module TcpLedger {
  import opened TcpModel
  import opened TcpStreams

  /** One lifetime of a stream: whose counters it feeds, and what it has counted. */
  datatype Lifetime = Lifetime(stat: Stats, totals: Totals)

  function Plus(a: Totals, b: Totals): Totals {
    Totals(a.txBytes + b.txBytes, a.txPackets + b.txPackets, a.rxBytes + b.rxBytes, a.rxPackets + b.rxPackets)
  }

  const NOTHING := Totals(0, 0, 0, 0)

  /** What a stream has counted since it was opened. */
  function Counts(s: StreamState): Totals {
    Totals(s.c2s.bytes, s.c2s.packets, s.s2c.bytes, s.s2c.packets)
  }

  function Sum(ledger: seq<Lifetime>, stat: Stats): Totals {
    if ledger == [] then NOTHING
    else Plus(Sum(ledger[..|ledger| - 1], stat),
              if ledger[|ledger| - 1].stat == stat then ledger[|ledger| - 1].totals else NOTHING)
  }

  /** A new lifetime has counted nothing. */
  lemma SumOpen(ledger: seq<Lifetime>, stat: Stats, any: Stats)
    ensures Sum(ledger + [Lifetime(stat, NOTHING)], any) == Sum(ledger, any)
  {
    var l := ledger + [Lifetime(stat, NOTHING)];
    assert l[..|l| - 1] == ledger;
  }

  /** A packet may be credited to either term of a sum. */
  lemma CreditMoves(a: Totals, b: Totals, side: Side, p: Packet)
    ensures Credited(Plus(a, b), side, p) == Plus(Credited(a, side, p), b) == Plus(a, Credited(b, side, p))
  {
  }

  /** A packet is credited to the lifetime and to the counters alike. */
  lemma {:induction false} SumCredit(ledger: seq<Lifetime>, i: nat, side: Side, p: Packet, any: Stats)
    requires i < |ledger| && !side.Neither?
    ensures var l := ledger[i];
      Sum(ledger[i := l.(totals := Credited(l.totals, side, p))], any)
      == if any == l.stat then Credited(Sum(ledger, any), side, p) else Sum(ledger, any)
    decreases |ledger|
  {
    var l := ledger[i];
    var n := |ledger| - 1;
    CreditMoves(Sum(ledger[..n], any), ledger[n].totals, side, p);
    CreditMoves(Sum(ledger[..n], any), NOTHING, side, p);
    hide Credited, Plus;
    var after := ledger[i := l.(totals := Credited(l.totals, side, p))];
    if i == n {
      assert after[..n] == ledger[..n];
    } else {
      assert after[..n] == ledger[..n][i := l.(totals := Credited(l.totals, side, p))];
      SumCredit(ledger[..n], i, side, p, any);
    }
  }

  /** A stream counts what its interface is credited with. */
  lemma CountsHandled(s: StreamState, p: Packet)
    requires Healthy(s)
    ensures var side := SideOf(s.key, p.key);
      Counts(Handled(s, p)) == if s.closed || side.Neither? then Counts(s) else Credited(Counts(s), side, p)
  {
    var side := SideOf(s.key, p.key);
    if !s.closed && !side.Neither? {
      CountedFrame(Marked(Seen(s, p.ts), side, p), side, p);
      hide Counted;
    }
  }
}
