/** Every lifetime of a history, ended ones included, and what the interfaces have counted after it. */
module TcpHistory {
  import opened TcpModel
  import opened TcpStreams
  import opened TcpLedger
  import opened TcpPool
  import opened TcpRuns

  /**
     The streams in use, and all lifetimes in the order in which they began; `page` tells where the lifetime of a
     stream in use stands among them.
   */
  datatype World = World(current: map<FlowKey, Use>, page: map<FlowKey, nat>, lives: seq<Use>)

  const EMPTY := World(map[], map[], [])

  /** The lifetime of the stream filed under `k` is now `u`. */
  function Put(w: World, k: FlowKey, u: Use): seq<Use> {
    if k in w.page && w.page[k] < |w.lives| then w.lives[w.page[k] := u] else w.lives
  }

  /** A stream is opened for `k`. */
  function Born(w: World, k: FlowKey, stat: Stats, ts: int): World {
    var u := Use(stat, Opened(k, ts));
    World(w.current[k := u], w.page[k := |w.lives|], w.lives + [u])
  }

  /** A packet reaches the stream filed under `k`; a stream that it closes has lived. */
  function Reached(w: World, k: FlowKey, p: Packet): World
    requires k in w.current
  {
    var u := Moved(w.current[k], p);
    World(Dispatched(w.current, k, p), w.page, Put(w, k, u))
  }

  /** A stream in use is closed by time. */
  function TimedOut(u: Use): Use {
    Use(u.stat, Shut(u.state))
  }

  function Arrived(w: World, stat: Stats, p: Packet): World {
    var opens := Owner(w.current, p.key).None? && !p.Ends() && p.syn && !p.ackFlag;
    var v := if opens then Born(w, p.key, stat, p.ts) else w;
    match Owner(v.current, p.key)
    case None => v
    case Some(k) => Reached(v, k, p)
  }

  function Next(w: World, e: Event): World {
    match e
    case Arrives(stat, p) => Arrived(w, stat, p)
    case Ticks(k, now) =>
      if k in w.current && w.current[k].state.lastSeen < now - TIMEOUT
      then World(w.current - {k}, w.page, Put(w, k, TimedOut(w.current[k]))) else w
    case Flushes(t) =>
      World(Kept(w.current, t, w.current.Keys), w.page, seq(|w.lives|, i requires 0 <= i < |w.lives| =>
        var u := w.lives[i];
        if !u.state.closed && u.state.lastSeen < t then TimedOut(u) else u))
  }

  function History(w: World, es: seq<Event>): World
    decreases |es|
  {
    if es == [] then w else History(Next(w, es[0]), es[1..])
  }

  /** What interface `b`, which had counted `t`, has counted after an event. */
  function CountersAfter(b: Stats, t: Totals, current: map<FlowKey, Use>, e: Event): Totals {
    match e
    case Arrives(stat, p) => AssembledCounters(b, t, current, stat, p)
    case Ticks(_, _) => t
    case Flushes(_) => t
  }

  function Counters(b: Stats, t: Totals, current: map<FlowKey, Use>, es: seq<Event>): Totals
    decreases |es|
  {
    if es == [] then t else Counters(b, CountersAfter(b, t, current, es[0]), After(current, es[0]), es[1..])
  }

  /** The lifetimes of a history, as the pool enters them in its ledger. */
  function Entries(lives: seq<Use>): seq<Lifetime> {
    seq(|lives|, i requires 0 <= i < |lives| => Life(lives[i]))
  }

  ghost predicate OnPage(w: World, k: FlowKey, i: nat) {
    k in w.current && k in w.page && w.page[k] == i
  }

  /** The open lifetimes are those of the streams in use, each on its own page. */
  ghost predicate Placed(w: World) {
    && (forall k | k in w.current :: k in w.page && w.page[k] < |w.lives| && w.lives[w.page[k]] == w.current[k])
    && (forall k, l | k in w.current && l in w.current && k != l :: w.page[k] != w.page[l])
    && (forall i | 0 <= i < |w.lives| && !w.lives[i].state.closed :: exists k :: OnPage(w, k, i))
  }

  lemma BornPlaced(w: World, k: FlowKey, stat: Stats, ts: int)
    requires Placed(w) && k !in w.current
    ensures Placed(Born(w, k, stat, ts))
  {
    var v := Born(w, k, stat, ts);
    hide Opened;
    forall i | 0 <= i < |v.lives| && !v.lives[i].state.closed ensures exists l :: OnPage(v, l, i) {
      BornOnPage(w, k, stat, ts, i);
    }
  }

  lemma BornOnPage(w: World, k: FlowKey, stat: Stats, ts: int, i: nat)
    requires Placed(w) && k !in w.current
    requires var v := Born(w, k, stat, ts); i < |v.lives| && !v.lives[i].state.closed
    ensures exists l :: OnPage(Born(w, k, stat, ts), l, i)
  {
    hide Opened;
    var v := Born(w, k, stat, ts);
    if i == |w.lives| {
      assert OnPage(v, k, i);
    } else {
      var l :| OnPage(w, l, i);
      assert OnPage(v, l, i);
    }
  }

  /** One lifetime moves on. */
  lemma MovedPlaced(w: World, k: FlowKey, u: Use)
    requires Placed(w) && k in w.current
    ensures Placed(World(w.current[k := u], w.page, Put(w, k, u)))
  {
    var v := World(w.current[k := u], w.page, Put(w, k, u));
    forall i | 0 <= i < |v.lives| && !v.lives[i].state.closed ensures exists l :: OnPage(v, l, i) {
      if i == w.page[k] {
        assert OnPage(v, k, i);
      } else {
        var l :| OnPage(w, l, i);
        assert OnPage(v, l, i);
      }
    }
  }

  /** One lifetime ends. */
  lemma EndedPlaced(w: World, k: FlowKey, u: Use)
    requires Placed(w) && k in w.current && u.state.closed
    ensures Placed(World(w.current - {k}, w.page, Put(w, k, u)))
  {
    var v := World(w.current - {k}, w.page, Put(w, k, u));
    forall i | 0 <= i < |v.lives| && !v.lives[i].state.closed ensures exists l :: OnPage(v, l, i) {
      var l :| OnPage(w, l, i);
      assert OnPage(v, l, i);
    }
  }

  lemma FlushPlaced(w: World, t: int)
    requires Placed(w) && forall k | k in w.current :: !w.current[k].state.closed
    ensures Placed(Next(w, Flushes(t)))
  {
    var v := Next(w, Flushes(t));
    forall i | 0 <= i < |v.lives| && !v.lives[i].state.closed ensures exists l :: OnPage(v, l, i) {
      FlushOnPage(w, t, i);
    }
  }

  lemma FlushOnPage(w: World, t: int, i: nat)
    requires Placed(w) && forall k | k in w.current :: !w.current[k].state.closed
    requires var v := Next(w, Flushes(t)); i < |v.lives| && !v.lives[i].state.closed
    ensures exists l :: OnPage(Next(w, Flushes(t)), l, i)
  {
    var l :| OnPage(w, l, i);
    assert w.lives[i] == w.current[l];
    assert OnPage(Next(w, Flushes(t)), l, i);
  }

  // ---------- what every event keeps ----------

  ghost predicate Tracks(w: World) {
    Orderly(w.current) && Placed(w)
  }

  lemma ArrivedTracks(w: World, stat: Stats, p: Packet)
    requires Tracks(w)
    ensures Tracks(Arrived(w, stat, p)) && Arrived(w, stat, p).current == Assembled(w.current, stat, p)
  {
    AfterOrderly(w.current, Arrives(stat, p));
    hide Orderly, Placed, Moved, Opened;
    var opens := Owner(w.current, p.key).None? && !p.Ends() && p.syn && !p.ackFlag;
    var v := if opens then Born(w, p.key, stat, p.ts) else w;
    if opens {
      BornPlaced(w, p.key, stat, p.ts);
    }
    if Owner(v.current, p.key).Some? {
      var k := Owner(v.current, p.key).value;
      var u := Moved(v.current[k], p);
      if u.state.closed {
        EndedPlaced(v, k, u);
      } else {
        MovedPlaced(v, k, u);
      }
    }
  }

  lemma NextTracks(w: World, e: Event)
    requires Tracks(w)
    ensures Tracks(Next(w, e)) && Next(w, e).current == After(w.current, e)
  {
    match e
    case Arrives(stat, p) =>
      hide Tracks, Arrived;
      ArrivedTracks(w, stat, p);
    case Ticks(k, now) => TickTracks(w, k, now);
    case Flushes(t) =>
      AfterOrderly(w.current, e);
      FlushPlaced(w, t);
      hide Orderly, Placed;
  }

  lemma TimedOutEnds(u: Use)
    ensures TimedOut(u).state.closed
  {
  }

  lemma TickTracks(w: World, k: FlowKey, now: int)
    requires Tracks(w)
    ensures var e := Ticks(k, now); Tracks(Next(w, e)) && Next(w, e).current == After(w.current, e)
  {
    if k in w.current {
      TickEnds(w, k, now);
    }
  }

  lemma TickEnds(w: World, k: FlowKey, now: int)
    requires Tracks(w) && k in w.current
    ensures var e := Ticks(k, now); Tracks(Next(w, e)) && Next(w, e).current == After(w.current, e)
  {
    AfterOrderly(w.current, Ticks(k, now));
    TimedOutEnds(w.current[k]);
    EndedPlaced(w, k, TimedOut(w.current[k]));
    hide Orderly, Placed, Put, Arrived, Assembled, Kept, TimedOut;
  }

  /** The history shows the same streams in use as the pool, and the page of each. */
  lemma {:induction false} HistoryTracks(w: World, es: seq<Event>)
    requires Tracks(w)
    ensures Tracks(History(w, es)) && History(w, es).current == RunEvents(w.current, es)
    decreases |es|
  {
    if es != [] {
      hide Tracks, Next, After;
      NextTracks(w, es[0]);
      HistoryTracks(Next(w, es[0]), es[1..]);
    }
  }

  lemma EmptyTracks()
    ensures Tracks(EMPTY)
  {
  }

  // ---------- ended lifetimes ----------

  /** An ended lifetime is never touched again. */
  lemma NextKeepsEnded(w: World, e: Event, i: nat)
    requires Tracks(w) && i < |w.lives| && w.lives[i].state.closed
    ensures i < |Next(w, e).lives| && Next(w, e).lives[i] == w.lives[i]
  {
    hide Healthy, Moved, Opened, Dispatched, Kept;
  }

  lemma {:induction false} HistoryKeepsEnded(w: World, es: seq<Event>, i: nat)
    requires Tracks(w) && i < |w.lives| && w.lives[i].state.closed
    ensures i < |History(w, es).lives| && History(w, es).lives[i] == w.lives[i]
    decreases |es|
  {
    if es != [] {
      hide Tracks, Next;
      NextTracks(w, es[0]);
      NextKeepsEnded(w, es[0], i);
      HistoryKeepsEnded(Next(w, es[0]), es[1..], i);
    }
  }

  // ---------- the sums ----------

  lemma EntriesPut(lives: seq<Use>, i: nat, u: Use)
    requires i < |lives|
    ensures Entries(lives[i := u]) == Entries(lives)[i := Life(u)]
  {
  }

  lemma EntriesBorn(lives: seq<Use>, u: Use)
    ensures Entries(lives + [u]) == Entries(lives) + [Life(u)]
  {
  }

  lemma ArrivedSums(w: World, stat: Stats, p: Packet, b: Stats)
    requires Tracks(w)
    ensures Sum(Entries(Arrived(w, stat, p).lives), b)
            == AssembledCounters(b, Sum(Entries(w.lives), b), w.current, stat, p)
  {
    var opens := Owner(w.current, p.key).None? && !p.Ends() && p.syn && !p.ackFlag;
    var v := if opens then Born(w, p.key, stat, p.ts) else w;
    BornSums(w, p.key, stat, p.ts, b);
    BornHealthy(w, stat, p);
    if Owner(v.current, p.key).Some? {
      var k := Owner(v.current, p.key).value;
      ReachedSums(v, k, p, b);
    }
    hide Sum, Entries, Orderly, Placed, Moved, Tallied, Opened, Put;
  }

  /** A packet that opens a stream leaves everything in its place before it is counted. */
  lemma BornHealthy(w: World, stat: Stats, p: Packet)
    requires Tracks(w)
    ensures var opens := Owner(w.current, p.key).None? && !p.Ends() && p.syn && !p.ackFlag;
      Tracks(if opens then Born(w, p.key, stat, p.ts) else w)
  {
    hide Orderly, Placed;
    LocatedOrderly(w.current, p.key, stat, p.Ends(), p.syn && !p.ackFlag, p.ts);
    if p.key !in w.current {
      BornPlaced(w, p.key, stat, p.ts);
    }
  }

  lemma BornSums(w: World, k: FlowKey, stat: Stats, ts: int, b: Stats)
    ensures Sum(Entries(Born(w, k, stat, ts).lives), b) == Sum(Entries(w.lives), b)
  {
    EntriesBorn(w.lives, Use(stat, Opened(k, ts)));
    SumOpen(Entries(w.lives), stat, b);
    hide Sum, Entries;
    assert Life(Use(stat, Opened(k, ts))) == Lifetime(stat, NOTHING);
  }

  lemma ReachedSums(w: World, k: FlowKey, p: Packet, b: Stats)
    requires Tracks(w) && k in w.current
    ensures Sum(Entries(Reached(w, k, p).lives), b) == Tallied(b, Sum(Entries(w.lives), b), w.current[k], p)
  {
    var i, u := w.page[k], w.current[k];
    EntriesPut(w.lives, i, Moved(u, p));
    assert Entries(w.lives)[i] == Life(u);
    hide Sum, Entries, Moved, Tallied, Dispatched;
    SumMoved(Entries(w.lives), i, u, p, b);
  }

  /** Ending by time moves no counter. */
  lemma SameEntries(w: World, e: Event)
    requires Tracks(w) && !e.Arrives?
    ensures Entries(Next(w, e).lives) == Entries(w.lives)
  {
    hide Healthy, Kept;
  }

  /**
     After any history of packets, ticks and flushes, the counters of every interface are the sum over all lifetimes
     of its streams, those still open and those that have ended.
   */
  lemma {:induction false} CountersAreSums(w: World, es: seq<Event>, b: Stats)
    requires Tracks(w)
    ensures Counters(b, Sum(Entries(w.lives), b), w.current, es) == Sum(Entries(History(w, es).lives), b)
    decreases |es|
  {
    if es != [] {
      NextTracks(w, es[0]);
      if es[0].Arrives? {
        ArrivedSums(w, es[0].stat, es[0].p, b);
      } else {
        SameEntries(w, es[0]);
      }
      hide Tracks, Sum, Entries, Arrived, After, AssembledCounters, Kept;
      CountersAreSums(Next(w, es[0]), es[1..], b);
    }
  }

  function SumWhere(lives: seq<Use>, b: Stats, closed: bool): Totals {
    Sum(Entries(Select(lives, closed)), b)
  }

  /** The lifetimes that have ended, or those that have not. */
  function Select(lives: seq<Use>, closed: bool): seq<Use> {
    if lives == [] then []
    else
      var n := |lives| - 1;
      Select(lives[..n], closed) + if lives[n].state.closed == closed then [lives[n]] else []
  }

  lemma SelectSnoc(lives: seq<Use>, u: Use, closed: bool)
    ensures Select(lives + [u], closed) == if u.state.closed == closed then Select(lives, closed) + [u]
                                           else Select(lives, closed)
  {
    assert (lives + [u])[..|lives|] == lives;
  }

  lemma PlusMoves(a: Totals, b: Totals, x: Totals)
    ensures Plus(Plus(a, b), x) == Plus(Plus(a, x), b) == Plus(a, Plus(b, x))
  {
  }

  /** What lifetime `u` adds to interface `b`. */
  function Share(u: Use, b: Stats): Totals {
    if u.stat == b then Counts(u.state) else NOTHING
  }

  lemma SumWhereSnoc(lives: seq<Use>, u: Use, b: Stats, closed: bool)
    ensures SumWhere(lives + [u], b, closed)
            == if u.state.closed == closed then Plus(SumWhere(lives, b, closed), Share(u, b))
               else SumWhere(lives, b, closed)
  {
    hide Sum, Entries, Plus, Select;
    SelectSnoc(lives, u, closed);
    SumSnoc(Select(lives, closed), u, b);
  }

  lemma SumNothing(b: Stats)
    ensures Sum(Entries([]), b) == NOTHING
    ensures SumWhere([], b, true) == SumWhere([], b, false) == NOTHING == Plus(NOTHING, NOTHING)
  {
    assert Entries([]) == [];
  }

  lemma {:induction false} SumSplits(lives: seq<Use>, b: Stats)
    ensures Sum(Entries(lives), b) == Plus(SumWhere(lives, b, true), SumWhere(lives, b, false))
    decreases |lives|
  {
    hide Sum, Entries, Plus, Select, SumWhere, Share;
    SumNothing(b);
    if lives != [] {
      var n := |lives| - 1;
      var init, u := lives[..n], lives[n];
      assert lives == init + [u];
      SumSplits(init, b);
      SumSnoc(init, u, b);
      SumWhereSnoc(init, u, b, true);
      SumWhereSnoc(init, u, b, false);
      PlusMoves(SumWhere(init, b, true), SumWhere(init, b, false), Share(u, b));
    }
  }

  lemma SumSnoc(lives: seq<Use>, u: Use, b: Stats)
    ensures Sum(Entries(lives + [u]), b)
            == Plus(Sum(Entries(lives), b), Share(u, b))
  {
    EntriesBorn(lives, u);
    var l := Entries(lives) + [Life(u)];
    assert l[..|l| - 1] == Entries(lives);
  }

  /** The ledger that the contracts of the pool describe is that of the lifetimes. */
  lemma LedgerFollows(w: World, e: Event)
    requires Tracks(w)
    ensures var a := Account(Entries(w.lives), w.page);
      var v := Next(w, e);
      Account(Entries(v.lives), v.page)
      == match e case Arrives(stat, p) => AssembledAccount(a, w.current, stat, p) case _ => a
  {
    if e.Arrives? {
      ArrivedLedger(w, e.stat, e.p);
    } else {
      SameEntries(w, e);
    }
  }

  lemma ArrivedLedger(w: World, stat: Stats, p: Packet)
    requires Tracks(w)
    ensures Account(Entries(Arrived(w, stat, p).lives), Arrived(w, stat, p).page)
            == AssembledAccount(Account(Entries(w.lives), w.page), w.current, stat, p)
  {
    hide Orderly, Placed, Moved, Dispatched;
    EntriesBorn(w.lives, Use(stat, Opened(p.key, p.ts)));
    var opens := Owner(w.current, p.key).None? && !p.Ends() && p.syn && !p.ackFlag;
    var v := if opens then Born(w, p.key, stat, p.ts) else w;
    BornHealthy(w, stat, p);
    if Owner(v.current, p.key).Some? {
      var k := Owner(v.current, p.key).value;
      PutLedger(v, k, Moved(v.current[k], p));
    }
    hide Entries, Put, Post;
  }

  lemma PutLedger(w: World, k: FlowKey, u: Use)
    ensures Account(Entries(Put(w, k, u)), w.page) == Post(Account(Entries(w.lives), w.page), k, u)
  {
    if k in w.page && w.page[k] < |w.lives| {
      EntriesPut(w.lives, w.page[k], u);
    }
  }

  /** From an empty pool: ended lifetimes plus those of the streams in use make up every counter. */
  lemma TotalsConserved(es: seq<Event>, b: Stats)
    ensures var w := History(EMPTY, es);
      && Counters(b, NOTHING, map[], es) == Plus(SumWhere(w.lives, b, true), SumWhere(w.lives, b, false))
      && w.current == RunEvents(map[], es) && Tracks(w)
  {
    EmptyTracks();
    SumNothing(b);
    CountersAreSums(EMPTY, es, b);
    HistoryTracks(EMPTY, es);
    SumSplits(History(EMPTY, es).lives, b);
  }
}
