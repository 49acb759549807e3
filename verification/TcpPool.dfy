/** The pool that hands out and takes back streams, and the assembler that drives it. */
module TcpPool {
  import opened Bytes
  import opened LinkedLists
  import opened TcpModel
  import opened TcpStreams
  import opened TcpLedger

  const INITIAL_ALLOC_SIZE := 8192

  function Pow2(n: nat): nat {
    if n == 0 then 1 else 2 * Pow2(n - 1)
  }

  /** Every stream is either free or serves one key, and no two streams serve a flow and its reverse. */
  ghost predicate Divides(all: seq<Stream>, free: seq<Stream>, streams: map<FlowKey, Stream>) {
    && Distinct(all) && Distinct(free)
    && (forall s | s in free :: s in all)
    && (forall k | k in streams :: streams[k] in all && streams[k] !in free)
    && (forall s | s in all :: s in free || s in streams.Values)
    && (forall k, l | k in streams && l in streams && k != l :: streams[k] != streams[l])
    && (forall k | k in streams && k.Reverse() in streams :: k.Reverse() == k)
  }

  lemma DividesParts(all: seq<Stream>, free: seq<Stream>, streams: map<FlowKey, Stream>)
    requires Divides(all, free, streams)
    ensures forall s | s in free :: s in all
    ensures forall k | k in streams :: streams[k] in all && streams[k] !in free
  {
  }

  lemma DividesMore(all: seq<Stream>, free: seq<Stream>, streams: map<FlowKey, Stream>, s: Stream)
    requires Divides(all, free, streams) && s !in all
    ensures Divides(all + [s], free + [s], streams)
  {
  }

  /** The last free stream is opened for a key that neither it nor its reverse has a stream. */
  lemma DividesTake(all: seq<Stream>, free: seq<Stream>, streams: map<FlowKey, Stream>, k: FlowKey)
    requires Divides(all, free, streams) && free != [] && k !in streams && k.Reverse() !in streams
    ensures var n := |free| - 1;
      free[n] in all && free[n] !in free[..n] && Divides(all, free[..n], streams[k := free[n]])
  {
    var n := |free| - 1;
    var after := streams[k := free[n]];
    forall s | s in all ensures s in free[..n] || s in after.Values {
      if s !in free {
        var l :| l in streams && streams[l] == s;
        assert after[l] == s;
      } else if s !in free[..n] {
        assert s == free[n] == after[k];
      }
    }
    ReverseTwice(k);
    forall l | l in after && l.Reverse() in after ensures l.Reverse() == l {
      ReverseTwice(l);
    }
  }

  lemma DividesReturn(all: seq<Stream>, free: seq<Stream>, streams: map<FlowKey, Stream>, k: FlowKey)
    requires Divides(all, free, streams) && k in streams
    ensures Divides(all, free + [streams[k]], streams - {k})
  {
    var after := streams - {k};
    forall s | s in all ensures s in free + [streams[k]] || s in after.Values {
      if s !in free {
        var l :| l in streams && streams[l] == s;
        assert l == k || after[l] == s;
      }
    }
  }

  /** A stream in use: the interface it is counted for, and its value. */
  datatype Use = Use(stat: Stats, state: StreamState)

  function Life(u: Use): Lifetime {
    Lifetime(u.stat, Counts(u.state))
  }

  /** The ledger has a page for the lifetime of every stream in use. */
  ghost predicate Records(ledger: seq<Lifetime>, page: map<FlowKey, nat>, current: map<FlowKey, Use>) {
    && (forall k | k in current :: k in page && page[k] < |ledger| && ledger[page[k]] == Life(current[k]))
    && (forall k, l | k in current && l in current && k != l :: page[k] != page[l])
  }

  ghost predicate Entered(ledger: seq<Lifetime>, books: set<Stats>) {
    forall l | l in ledger :: l.stat in books
  }

  /** The streams in use after a packet for the stream filed under `k`: one that it closes is gone. */
  function Dispatched(current: map<FlowKey, Use>, k: FlowKey, p: Packet): map<FlowKey, Use>
    requires k in current
  {
    var after := Moved(current[k], p);
    if after.state.closed then current - {k} else current[k := after]
  }

  /** A stream in use, moved by a packet. */
  function Moved(u: Use, p: Packet): Use {
    Use(u.stat, Handled(u.state, p))
  }

  /** The counters of interface `b`, which were `t`, after a packet for the stream `u`. */
  function Tallied(b: Stats, t: Totals, u: Use, p: Packet): Totals {
    var side := SideOf(u.state.key, p.key);
    if b != u.stat || u.state.closed || side.Neither? then t else Credited(t, side, p)
  }

  /** The ledger, and where it has the current lifetimes. */
  datatype Account = Account(ledger: seq<Lifetime>, page: map<FlowKey, nat>)

  /** A lifetime begins on a new page. */
  function Open(a: Account, k: FlowKey, stat: Stats): Account {
    Account(a.ledger + [Lifetime(stat, NOTHING)], a.page[k := |a.ledger|])
  }

  /** The page of the stream filed under `k` is brought up to date. */
  function Post(a: Account, k: FlowKey, u: Use): Account {
    if k in a.page && a.page[k] < |a.ledger| then a.(ledger := a.ledger[a.page[k] := Life(u)]) else a
  }

  class StreamPool {
    var streams: map<FlowKey, Stream>
    var users: int
    var free: seq<Stream>
    var all: seq<Stream>  // everything ever allocated; the source keeps it in chunks
    var nextAlloc: int
    var newConnectionCount: int
    ghost var grows: nat
    ghost var Repr: set<object>  // all objects of all streams
    ghost var books: set<Stats>
    ghost var ledger: seq<Lifetime>
    ghost var page: map<FlowKey, nat>  // where the ledger has the current lifetime of a stream

    ghost predicate Partition()
      reads this`all, this`free, this`streams
    {
      Divides(all, free, streams)
    }

    /** No two streams share an object. */
    ghost predicate Apart()
      reads this`all, this`books, this`Repr, Repr
    {
      && this !in Repr
      && (forall s | s in all :: s in Repr && s in s.Repr && s.Repr <= Repr)
      && (forall b | b in books :: b !in Repr)
      && (forall s, t | s in all && t in all && s != t :: s.Repr !! t.Repr)
    }

    /** A stream is open for the key it is filed under. */
    ghost predicate Serves(s: Stream, k: FlowKey)
      reads this`books, s, s.Repr
    {
      s.Valid() && !s.closed && s.key == k && s.stat in books
    }

    /** Free streams can be opened, and the others are open. */
    ghost predicate Working()
      requires Partition() && Apart()
      reads this`all, this`free, this`streams, this`books, this`Repr, Repr
    {
      DividesParts(all, free, streams);
      && (forall s | s in free :: s.Idle())
      && (forall k | k in streams :: Serves(streams[k], k))
    }

    ghost function UseOf(s: Stream): Use
      requires s.Valid()
      reads s, s.Repr
    {
      Use(s.stat, s.State())
    }

    /** The streams in use, by the key they serve. */
    ghost function Current(): map<FlowKey, Use>
      requires Partition() && Apart() && Working()
      reads this`all, this`free, this`streams, this`books, this`Repr, Repr
    {
      DividesParts(all, free, streams);
      map k | k in streams :: UseOf(streams[k])
    }

    /** The counters of every interface are the sum of its lifetimes. */
    ghost predicate Balanced()
      reads this`books, this`ledger, books
    {
      Entered(ledger, books) && forall b | b in books :: b.State() == Sum(ledger, b)
    }

    /** The ledger is up to date, and the counters agree with it. */
    ghost predicate Accounted()
      requires Partition() && Apart() && Working()
      reads this`all, this`free, this`streams, this`books, this`Repr, this`ledger, this`page, Repr, books
    {
      Records(ledger, page, Current()) && Balanced()
    }

    ghost predicate Grown()
      reads this`nextAlloc, this`grows, this`all
    {
      nextAlloc == INITIAL_ALLOC_SIZE * Pow2(grows) && |all| == INITIAL_ALLOC_SIZE * (Pow2(grows) - 1)
    }

    ghost predicate Valid()
      reads this, Repr, books
    {
      Partition() && Apart() && Working() && Accounted() && Grown()
    }

    /** The streams in use, seen from outside. */
    ghost function InUse(): (current: map<FlowKey, Use>)
      requires Valid()
      reads this, Repr, books
    {
      Current()
    }

    constructor ()
      ensures Valid() && all == [] && streams == map[] && books == {} && nextAlloc == 8192
    {
      streams, free, all, nextAlloc := map[], [], [], INITIAL_ALLOC_SIZE;
      users, newConnectionCount := 0, 0;
      grows, Repr, books, ledger, page := 0, {}, {}, [], map[];
    }

    /** Doubles the pool. */
    method Grow()
      requires Valid() && free == []
      modifies this`all, this`free, this`nextAlloc, this`grows, this`Repr
      ensures Valid() && free != [] && fresh(Repr - old(Repr)) && old(Repr) <= Repr && Current() == old(Current())
      ensures nextAlloc == 2 * old(nextAlloc) && |all| == |old(all)| + old(nextAlloc) && grows == old(grows) + 1
    {
      hide Divides, Apart, Working, Accounted, Current;
      Outside();
      var n := 0;
      while n < nextAlloc
        invariant 0 <= n <= nextAlloc && nextAlloc == old(nextAlloc) && |all| == |old(all)| + n && |free| == n
        invariant Partition() && Apart() && Working() && Accounted() && Current() == old(Current())
        invariant fresh(Repr - old(Repr)) && old(Repr) <= Repr && this !in Repr && grows == old(grows)
      {
        AddFresh();
        n := n + 1;
      }
      nextAlloc := nextAlloc * 2;
      grows := grows + 1;
    }

    lemma Outside()
      requires Apart()
      ensures this !in Repr
    {
    }

    method AddFresh()
      requires Partition() && Apart() && Working() && Accounted()
      modifies this`all, this`free, this`Repr
      ensures Partition() && Apart() && Working() && Accounted()
      ensures |all| == |old(all)| + 1 && |free| == |old(free)| + 1 && this !in Repr && Current() == old(Current())
      ensures fresh(Repr - old(Repr)) && old(Repr) <= Repr
    {
      hide Divides, Stream.Valid, Stream.Idle, Records, Balanced, Serves, Stream.State, Working, Current, UseOf, Apart;
      Known();
      ghost var current := Current();
      var s := new Stream();
      DividesMore(all, free, streams, s);
      all := all + [s];
      free := free + [s];
      Repr := Repr + s.Repr;
      Newcomer(s);
      IsAccounted(current);
    }

    lemma Known()
      requires Partition() && Apart() && Working()
      ensures this !in Repr && (forall b | b in books :: b !in Repr) && (forall s | s in all :: s in Repr)
      ensures Current().Keys == streams.Keys
    {
      hide Divides;
      DividesParts(all, free, streams);
    }

    /** A fresh stream leaves the others as they are. */
    twostate lemma Newcomer(new s: Stream)
      requires old(Partition() && Apart() && Working()) && all == old(all) + [s] && books == old(books)
      requires free == old(free) + [s] && streams == old(streams)
      requires s.Idle() && s in s.Repr && fresh(s.Repr) && Repr == old(Repr) + s.Repr
      requires this !in Repr && forall b | b in books :: b !in Repr
      requires forall o | o in old(Repr) :: unchanged(o)
      ensures Apart() && forall t | t in free :: t.Idle()
      ensures forall k | k in streams :: Serves(streams[k], k) && UseOf(streams[k]) == old(Current())[k]
    {
      hide Divides, Stream.Idle, Stream.Valid, Stream.State;
      DividesParts(old(all), old(free), old(streams));
    }

    lemma IsAccounted(current: map<FlowKey, Use>)
      requires Partition() && Apart() && Balanced() && Records(ledger, page, current)
      requires forall t | t in free :: t.Idle()
      requires streams.Keys == current.Keys
      requires forall k | k in streams :: Serves(streams[k], k) && UseOf(streams[k]) == current[k]
      ensures Working() && Accounted() && Current() == current
    {
      hide Divides, Stream.Valid, Stream.Idle, Records, Balanced, Stream.State;
      DividesParts(all, free, streams);
      assert Current() == current;
    }

    /** What happens inside one stream leaves the others as they are. */
    twostate lemma Others(s: Stream)
      requires old(Valid()) && all == old(all) && books == old(books) && s in all
      requires Repr == old(Repr) + s.Repr && old(s.Repr) <= s.Repr && fresh(s.Repr - old(s.Repr))
      requires forall o | o in old(Repr) && o !in old(s.Repr) :: unchanged(o)
      ensures Apart()
      ensures forall t | t in old(free) && t != s :: t.Idle()
      ensures forall k | k in old(streams) && old(streams)[k] != s ::
        var t := old(streams)[k];
        Serves(t, k) && UseOf(t) == old(Current())[k]
    {
      hide Divides, Stream.Idle, Stream.Valid, Stream.State;
      DividesParts(old(all), old(free), old(streams));
    }

    /** `newStream`: opens a free stream for `k`, growing the pool if there is none. */
    method NewStream(k: FlowKey, stat: Stats, ts: int) returns (s: Stream)
      requires Valid() && stat in books && k !in streams && k.Reverse() !in streams
      modifies this, Repr
      ensures Valid() && fresh(Repr - old(Repr)) && old(Repr) <= Repr && books == old(books)
      ensures streams == old(streams)[k := s] && InUse() == old(InUse())[k := Use(stat, Opened(k, ts))]
      ensures Account(ledger, page) == Open(Account(old(ledger), old(page)), k, stat)
      ensures forall b | b in books :: b.State() == old(b.State())
    {
      hide Divides, Apart, Working, Accounted, Stream.Valid, Stream.State;
      Outside();
      newConnectionCount := newConnectionCount + 1;
      if |free| == 0 {
        Grow();
      }
      s := OpenLast(k, stat, ts);
    }

    method OpenLast(k: FlowKey, stat: Stats, ts: int) returns (s: Stream)
      requires Valid() && stat in books && k !in streams && k.Reverse() !in streams && free != []
      modifies this`free, this`streams, this`Repr, this`ledger, this`page, Repr
      ensures Valid() && fresh(Repr - old(Repr)) && old(Repr) <= Repr
      ensures streams == old(streams)[k := s] && Current() == old(Current())[k := Use(stat, Opened(k, ts))]
      ensures Account(ledger, page) == Open(Account(old(ledger), old(page)), k, stat)
      ensures forall b | b in books :: b.State() == old(b.State())
    {
      hide Divides, Stream.Valid, Stream.Idle, Records, Entered, Stream.State, Sum, Serves, Counts, Life, UseOf,
        Working, Current;
      hide Opened, Stream.Linked, Stream.Owns, Healthy;
      ghost var current := Current();
      s := TakeLast(k, stat, ts);
      DividesParts(all, free, streams);
      RecordsOpen(ledger, page, current, k, stat, ts, books);
      ledger, page := ledger + [Lifetime(stat, NOTHING)], page[k := |ledger|];
      IsAccounted(current[k := Use(stat, Opened(k, ts))]);
    }

    /** The last free stream is opened and filed; its lifetime has yet to be entered. */
    method TakeLast(k: FlowKey, stat: Stats, ts: int) returns (s: Stream)
      requires Valid() && stat in books && k !in streams && k.Reverse() !in streams && free != []
      modifies this`free, this`streams, this`Repr, Repr
      ensures fresh(Repr - old(Repr)) && old(Repr) <= Repr && this !in Repr
      ensures Partition() && Apart() && Grown() && Balanced()
      ensures streams == old(streams)[k := s] && old(Current()).Keys == old(streams).Keys
      ensures forall t | t in free :: t.Idle()
      ensures forall l | l in streams && l != k :: Serves(streams[l], l) && UseOf(streams[l]) == old(Current())[l]
      ensures Serves(s, k) && UseOf(s) == Use(stat, Opened(k, ts))
      ensures Records(ledger, page, old(Current()))
      ensures forall b | b in books :: b.State() == old(b.State())
    {
      hide Divides, Stream.Valid, Stream.Idle, Records, Entered, Stream.State, Sum, Serves, Counts, Life, UseOf,
        Working, Current, Apart;
      hide Stream.Linked, Stream.Owns, Healthy;
      TakeFacts(k, stat);
      var index := |free| - 1;
      s := free[index];
      free := free[..index];
      s.Reset(k, stat, ts);
      streams := streams[k := s];
      Repr := Repr + s.Repr;
      Others(s);
      ServesOpened(s, k, ts);
    }

    /** What is known of the last free stream. */
    lemma TakeFacts(k: FlowKey, stat: Stats)
      requires Valid() && stat in books && k !in streams && k.Reverse() !in streams && free != []
      ensures var n := |free| - 1;
        var s := free[n];
        && s.Idle() && s in all && stat !in s.Repr && s in s.Repr && s.Repr <= Repr && s !in free[..n]
        && Divides(all, free[..n], streams[k := s])
        && (forall l | l in streams :: streams[l] != s)
      ensures this !in Repr && (forall b | b in books :: b !in Repr) && Current().Keys == streams.Keys
    {
      hide Divides, Stream.Idle, Stream.Valid;
      DividesParts(all, free, streams);
      DividesTake(all, free, streams, k);
    }

    lemma ServesOpened(s: Stream, k: FlowKey, ts: int)
      requires s.Valid() && s.State() == Opened(k, ts) && s.stat in books
      ensures Serves(s, k) && UseOf(s) == Use(s.stat, Opened(k, ts))
    {
    }

    /** `remove`, which ends the closing of a stream: it is filed nowhere and free again. */
    method Remove(s: Stream, ghost k: FlowKey)
      requires s.key == k && k in streams && streams[k] == s
      modifies this`streams, this`free
      ensures streams == old(streams) - {k} && free == old(free) + [s]
    {
      streams := streams - {s.key};
      free := free + [s];
    }

    /** Closes a stream that has timed out. */
    method CloseStream(s: Stream, ghost k: FlowKey)
      requires Valid() && k in streams && streams[k] == s
      modifies this`streams, this`free, Repr
      ensures Valid() && Repr == old(Repr) && streams == old(streams) - {k}
      ensures s.Valid() && s.State() == Shut(old(s.State()))
      ensures InUse() == old(InUse()) - {k}
      ensures books == old(books) && ledger == old(ledger) && page == old(page)
      ensures forall b | b in books :: b.State() == old(b.State())
    {
      hide Divides, Stream.Valid, Stream.Idle, Records, Entered, Stream.State, Sum, Serves, Counts, Life, UseOf,
        Working, Current, Apart;
      hide Stream.Linked, Stream.Owns, Healthy, Shut;
      UseFacts(k);
      ghost var current := Current();
      s.Close();
      Remove(s, k);
      Others(s);
      RecordsClose(ledger, page, current, k);
      IsAccounted(current - {k});
    }

    /** A packet reaches a stream in use, and may close it. */
    method Dispatch(s: Stream, p: Packet, ghost k: FlowKey)
      requires Valid() && k in streams && streams[k] == s
      modifies this`streams, this`free, this`ledger, this`Repr, Repr, books
      ensures Valid() && fresh(Repr - old(Repr)) && old(Repr) <= Repr
      ensures books == old(books)
      ensures k in old(InUse()) && InUse() == Dispatched(old(InUse()), k, p)
      ensures Account(ledger, page) == Post(Account(old(ledger), old(page)), k, Moved(old(InUse())[k], p))
      ensures forall b | b in books :: b.State() == Tallied(b, old(b.State()), old(InUse())[k], p)
    {
      hide Divides, Stream.Valid, Stream.Idle, Records, Stream.State, Counts, Serves, Life, UseOf, Working, Current;
      hide Stream.Linked, Stream.Owns, Healthy, Shut, Handled, Balanced, Grown;
      ghost var current := Current();
      Deliver(s, p, k);
      DividesParts(all, free, streams);
      if s.closed {
        Remove(s, k);
      }
      IsAccounted(Dispatched(current, k, p));
    }

    /** The stream takes the packet; if that closed it, it has yet to be removed. */
    method Deliver(s: Stream, p: Packet, ghost k: FlowKey)
      requires Valid() && k in streams && streams[k] == s
      modifies this`ledger, this`Repr, Repr, books
      ensures fresh(Repr - old(Repr)) && old(Repr) <= Repr && this !in Repr
      ensures Partition() && Apart() && Grown() && Balanced()
      ensures k in old(Current()) && old(Current()).Keys == streams.Keys
      ensures Records(ledger, page, Dispatched(old(Current()), k, p))
      ensures forall t | t in free :: t.Idle()
      ensures forall l | l in streams && l != k :: Serves(streams[l], l) && UseOf(streams[l]) == old(Current())[l]
      ensures s.Valid() && s.key == k && s.closed == Handled(old(Current())[k].state, p).closed
      ensures if s.closed then s.Idle() && Divides(all, free + [s], streams - {k})
              else Serves(s, k) && UseOf(s) == Dispatched(old(Current()), k, p)[k]
      ensures Account(ledger, page) == Post(Account(old(ledger), old(page)), k, Moved(old(Current())[k], p))
      ensures forall b | b in books :: b.State() == Tallied(b, old(b.State()), old(Current())[k], p)
    {
      hide Divides, Stream.Valid, Stream.Idle, Records, Entered, Stream.State, Sum, Serves, Counts, Life, UseOf,
        Working, Current, Apart;
      hide Stream.Linked, Stream.Owns, Healthy, Shut, Handled, SideOf, Grown;
      UseFacts(k);
      ghost var current := Current();
      ghost var u := current[k];
      s.Deliver(p);
      HandledKey(u.state, p);
      Repr := Repr + s.Repr;
      RecordsHandled(ledger, page, current, k, p, books);
      ledger := ledger[page[k] := Life(Use(u.stat, Handled(u.state, p)))];
      Others(s);
      Afterwards(s);
    }

    /** What is known of a stream that has been opened. */
    lemma Afterwards(s: Stream)
      requires s.Valid()
      ensures s.key == s.State().key && s.closed == s.State().closed && (s.closed ==> s.Idle())
      ensures UseOf(s) == Use(s.stat, s.State())
      ensures !s.closed && s.stat in books ==> Serves(s, s.key)
    {
    }

    /** What is known of a stream in use. */
    lemma UseFacts(k: FlowKey)
      requires Valid() && k in streams
      ensures var s := streams[k];
        && s in all && s in s.Repr && s.Repr <= Repr && s.Valid() && !s.closed && s.key == k && s.stat in books
        && s.Linked() && s.Used() && !s.State().closed && Healthy(s.State()) && s.State().key == k
        && s !in free && Divides(all, free + [s], streams - {k})
        && (forall l | l in streams && l != k :: streams[l] != s)
      ensures this !in Repr && (forall b | b in books :: b !in Repr) && Current().Keys == streams.Keys
      ensures k in page && page[k] < |ledger| && ledger[page[k]] == Life(Current()[k])
      ensures UseOf(streams[k]) == Current()[k] == Use(streams[k].stat, streams[k].State())
    {
      hide Divides;
      DividesParts(all, free, streams);
      DividesReturn(all, free, streams, k);
      OneKeyEach(all, free, streams);
    }

    /** One more assembler uses the pool; its interface has counted nothing. */
    method AddUser(ghost stat: Stats)
      requires Valid() && stat.State() == NOTHING && stat !in Repr && stat !in books
      modifies this`users, this`books
      ensures Valid() && books == old(books) + {stat} && InUse() == old(InUse()) && users == old(users) + 1
      ensures ledger == old(ledger) && page == old(page)
    {
      hide Divides, Stream.Valid, Stream.Idle, Stream.State, Records, Working, Current, Apart, Serves, UseOf, Grown;
      Known();
      SumNone(ledger, stat);
      ghost var current := Current();
      users := users + 1;
      books := books + {stat};
      Enrolled(stat);
      IsAccounted(current);
    }

    twostate lemma Enrolled(stat: Stats)
      requires old(Valid()) && all == old(all) && free == old(free) && streams == old(streams) && Repr == old(Repr)
      requires books == old(books) + {stat} && stat !in Repr && this !in Repr
      requires forall o | o in old(Repr) :: unchanged(o)
      ensures Apart() && forall t | t in free :: t.Idle()
      ensures forall k | k in streams :: Serves(streams[k], k) && UseOf(streams[k]) == old(Current())[k]
    {
      hide Divides, Stream.Idle, Stream.Valid, Stream.State, Records, Sum, Counts, Life, Healthy;
      DividesParts(old(all), old(free), old(streams));
    }

    /** `getStream`: the stream of `k` or of its reverse; a first SYN opens one if there is none. */
    method GetStream(k: FlowKey, stat: Stats, end: bool, syn: bool, ts: int) returns (s: Stream?)
      requires Valid() && stat in books
      modifies this, Repr
      ensures Valid() && fresh(Repr - old(Repr)) && old(Repr) <= Repr && books == old(books)
      ensures InUse() == Located(old(InUse()), k, stat, end, syn, ts)
      ensures match Owner(InUse(), k)
              case None => s == null
              case Some(l) => l in streams && s == streams[l]
      ensures Account(ledger, page)
           == LocatedAccount(Account(old(ledger), old(page)), old(InUse()), k, stat, end, syn)
      ensures forall b | b in books :: b.State() == old(b.State())
    {
      hide Divides, Valid, InUse;
      SameKeys();
      s := if k in streams then streams[k] else null;
      if s == null {
        s := if k.Reverse() in streams then streams[k.Reverse()] else null;
      }
      if end || !syn || s != null {
        return;
      }
      s := NewStream(k, stat, ts);
    }

    /** Closes the stream of `k` if it was not seen since `t`. */
    method CloseOld(k: FlowKey, t: int)
      requires Valid() && k in InUse()
      modifies this`streams, this`free, Repr
      ensures Valid() && Repr == old(Repr)
      ensures InUse() == if old(InUse())[k].state.lastSeen < t then old(InUse()) - {k} else old(InUse())
      ensures books == old(books) && ledger == old(ledger) && page == old(page)
      ensures forall b | b in books :: b.State() == old(b.State())
    {
      hide Divides, Stream.Valid;
      SameKeys();
      UseFacts(k);
      if streams[k].lastSeen < t {
        CloseStream(streams[k], k);
      }
    }

    /** A tick of the stream's timer. */
    method Tick(k: FlowKey, now: int)
      requires Valid() && k in InUse()
      modifies this`streams, this`free, Repr
      ensures Valid() && Repr == old(Repr)
      ensures InUse() == if old(InUse())[k].state.lastSeen < now - TIMEOUT then old(InUse()) - {k} else old(InUse())
      ensures books == old(books) && ledger == old(ledger) && page == old(page)
      ensures forall b | b in books :: b.State() == old(b.State())
    {
      hide Valid, InUse;
      CloseOld(k, now - TIMEOUT);
    }

    /** Closes every stream not seen since `t`. */
    method FlushOlderThan(t: int)
      requires Valid()
      modifies this`streams, this`free, Repr
      ensures Valid() && Repr == old(Repr) && InUse() == Kept(old(InUse()), t, old(InUse()).Keys)
      ensures books == old(books) && ledger == old(ledger) && page == old(page)
      ensures forall b | b in books :: b.State() == old(b.State())
    {
      hide Valid, InUse, Kept;
      ghost var current := InUse();
      SameKeys();
      var todo := streams.Keys;
      ghost var done: set<FlowKey> := {};
      KeptNone(current, t);
      while todo != {}
        invariant Valid() && Repr == old(Repr)
        invariant done !! todo && done + todo == current.Keys
        invariant InUse() == Kept(current, t, done)
        invariant books == old(books) && ledger == old(ledger) && page == old(page)
        invariant forall b | b in books :: b.State() == old(b.State())
        decreases |todo|
      {
        var k :| k in todo;
        KeptMore(current, t, done, k);
        CloseOld(k, t);
        todo, done := todo - {k}, done + {k};
      }
      assert done == current.Keys;
    }

    lemma SameKeys()
      requires Valid()
      ensures InUse().Keys == streams.Keys
    {
      hide Divides;
    }
  }

  const TIMEOUT := 120_000_000_000  // two minutes, in nanoseconds

  /** The key under which a packet's stream is filed. */
  function Owner(current: map<FlowKey, Use>, k: FlowKey): Option<FlowKey> {
    if k in current then Some(k) else if k.Reverse() in current then Some(k.Reverse()) else None
  }

  function Located(current: map<FlowKey, Use>, k: FlowKey, stat: Stats, end: bool, syn: bool, ts: int)
    : map<FlowKey, Use>
  {
    if Owner(current, k).Some? || end || !syn then current else current[k := Use(stat, Opened(k, ts))]
  }

  /** Of the streams in `keys`, only those seen since `t` are kept. */
  function Kept(current: map<FlowKey, Use>, t: int, keys: set<FlowKey>): map<FlowKey, Use> {
    map k | k in current && (k !in keys || current[k].state.lastSeen >= t) :: current[k]
  }

  lemma KeptNone(current: map<FlowKey, Use>, t: int)
    ensures Kept(current, t, {}) == current
  {
  }

  lemma KeptMore(current: map<FlowKey, Use>, t: int, keys: set<FlowKey>, k: FlowKey)
    requires k in current && k !in keys
    ensures k in Kept(current, t, keys) && Kept(current, t, keys)[k] == current[k]
    ensures Kept(current, t, keys + {k}) ==
      if current[k].state.lastSeen < t then Kept(current, t, keys) - {k} else Kept(current, t, keys)
  {
  }

  lemma OneKeyEach(all: seq<Stream>, free: seq<Stream>, streams: map<FlowKey, Stream>)
    requires Divides(all, free, streams)
    ensures forall k, l | k in streams && l in streams && k != l :: streams[k] != streams[l]
  {
  }

  lemma RecordsClose(ledger: seq<Lifetime>, page: map<FlowKey, nat>, current: map<FlowKey, Use>, k: FlowKey)
    requires Records(ledger, page, current)
    ensures Records(ledger, page, current - {k})
  {
  }

  lemma RecordsOpen(ledger: seq<Lifetime>, page: map<FlowKey, nat>, current: map<FlowKey, Use>, k: FlowKey,
                    stat: Stats, ts: int, books: set<Stats>)
    requires Records(ledger, page, current) && stat in books && Entered(ledger, books)
    ensures Entered(ledger + [Lifetime(stat, NOTHING)], books)
    ensures Records(ledger + [Lifetime(stat, NOTHING)], page[k := |ledger|], current[k := Use(stat, Opened(k, ts))])
    ensures forall b :: Sum(ledger + [Lifetime(stat, NOTHING)], b) == Sum(ledger, b)
  {
    forall b ensures Sum(ledger + [Lifetime(stat, NOTHING)], b) == Sum(ledger, b) {
      SumOpen(ledger, stat, b);
    }
  }

  /** A packet is credited to the lifetime of its stream, and to the counters of its interface. */
  lemma RecordsHandled(ledger: seq<Lifetime>, page: map<FlowKey, nat>, current: map<FlowKey, Use>, k: FlowKey,
                       p: Packet, books: set<Stats>)
    requires Records(ledger, page, current) && k in current && Healthy(current[k].state)
    requires Entered(ledger, books) && current[k].stat in books
    ensures var v := Moved(current[k], p);
      var after := ledger[page[k] := Life(v)];
      && Records(after, page, current[k := v]) && Records(after, page, current - {k}) && Entered(after, books)
      && forall b :: Sum(after, b) == Tallied(b, Sum(ledger, b), current[k], p)
  {
    hide Handled, Counts, Sum, Tallied;
    forall b
      ensures Sum(ledger[page[k] := Life(Moved(current[k], p))], b) == Tallied(b, Sum(ledger, b), current[k], p)
    {
      SumMoved(ledger, page[k], current[k], p, b);
    }
  }

  lemma SumMoved(ledger: seq<Lifetime>, i: nat, u: Use, p: Packet, b: Stats)
    requires i < |ledger| && ledger[i] == Life(u) && Healthy(u.state)
    ensures Sum(ledger[i := Life(Moved(u, p))], b) == Tallied(b, Sum(ledger, b), u, p)
  {
    CountsHandled(u.state, p);
    hide Handled, Counts, Sum, Healthy, SideOf;
    var side := SideOf(u.state.key, p.key);
    if u.state.closed || side.Neither? {
      assert ledger[i := Life(u)] == ledger;
    } else {
      SumCredit(ledger, i, side, p, b);
    }
  }

  lemma {:induction false} SumNone(ledger: seq<Lifetime>, stat: Stats)
    requires forall l | l in ledger :: l.stat != stat
    ensures Sum(ledger, stat) == NOTHING
    decreases |ledger|
  {
    if ledger != [] {
      SumNone(ledger[..|ledger| - 1], stat);
    }
  }

  /** The streams in use after a packet: it goes to its stream, or opens one if it is a first SYN. */
  function Assembled(current: map<FlowKey, Use>, stat: Stats, p: Packet): map<FlowKey, Use> {
    var located := Located(current, p.key, stat, p.Ends(), p.syn && !p.ackFlag, p.ts);
    match Owner(located, p.key)
    case None => located
    case Some(k) => Dispatched(located, k, p)
  }

  function LocatedAccount(a: Account, current: map<FlowKey, Use>, k: FlowKey, stat: Stats, end: bool, syn: bool)
    : Account
  {
    if Owner(current, k).Some? || end || !syn then a else Open(a, k, stat)
  }

  /** The ledger after a packet. */
  function AssembledAccount(a: Account, current: map<FlowKey, Use>, stat: Stats, p: Packet): Account {
    var located := Located(current, p.key, stat, p.Ends(), p.syn && !p.ackFlag, p.ts);
    var b := LocatedAccount(a, current, p.key, stat, p.Ends(), p.syn && !p.ackFlag);
    match Owner(located, p.key)
    case None => b
    case Some(k) => Post(b, k, Moved(located[k], p))
  }

  /** The counters of interface `b`, which were `t`, after a packet that arrives at `stat`. */
  function AssembledCounters(b: Stats, t: Totals, current: map<FlowKey, Use>, stat: Stats, p: Packet): Totals {
    var located := Located(current, p.key, stat, p.Ends(), p.syn && !p.ackFlag, p.ts);
    match Owner(located, p.key)
    case None => t
    case Some(k) => Tallied(b, t, located[k], p)
  }

  class Assembler {
    const stat: Stats
    const pool: StreamPool

    ghost predicate Valid()
      reads pool, pool.Repr, pool.books
    {
      pool.Valid() && stat in pool.books
    }

    constructor (pool: StreamPool)
      requires pool.Valid()
      modifies pool`users, pool`books
      ensures Valid() && this.pool == pool && fresh(stat) && pool.users == old(pool.users) + 1
      ensures pool.books == old(pool.books) + {stat} && pool.InUse() == old(pool.InUse())
    {
      hide StreamPool.Valid, StreamPool.InUse;
      this.pool := pool;
      var s := new Stats();
      stat := s;
      pool.AddUser(s);
    }

    /** `Assemble`: one captured packet. */
    method Assemble(p: Packet)
      requires Valid()
      modifies pool, pool.Repr, pool.books
      ensures Valid() && pool.books == old(pool.books)
      ensures pool.InUse() == Assembled(old(pool.InUse()), stat, p)
      ensures Account(pool.ledger, pool.page)
           == AssembledAccount(Account(old(pool.ledger), old(pool.page)), old(pool.InUse()), stat, p)
      ensures forall b | b in pool.books ::
        b.State() == AssembledCounters(b, old(b.State()), old(pool.InUse()), stat, p)
    {
      hide StreamPool.Valid, Located, LocatedAccount, Dispatched, Owner, StreamPool.InUse, Post, Tallied, Moved;
      var end := p.fin || p.rst;
      var empty := !p.syn && !p.psh && p.size == 0;
      var syn := p.syn && !p.ackFlag;
      SameWithoutSyn(Account(pool.ledger, pool.page), pool.InUse(), p.key, stat, end || empty, end, syn, p.ts);
      var s := pool.GetStream(p.key, stat, end || empty, syn, p.ts);
      if s == null {
        return;
      }
      ghost var k := Owner(pool.InUse(), p.key).value;
      pool.Dispatch(s, p, k);
    }
  }

  /** Whether a packet ends its stream matters only if it could open one; an empty packet never carries a first SYN. */
  lemma SameWithoutSyn(a: Account, current: map<FlowKey, Use>, k: FlowKey, stat: Stats, end: bool, other: bool,
                       syn: bool, ts: int)
    requires syn ==> end == other
    ensures Located(current, k, stat, end, syn, ts) == Located(current, k, stat, other, syn, ts)
    ensures LocatedAccount(a, current, k, stat, end, syn) == LocatedAccount(a, current, k, stat, other, syn)
  {
  }
}
