/** The connection and stream objects of tcpassembly, which their pool recycles. */
module TcpStreams {
  import opened RttModel
  import opened RttCaches
  import opened TcpModel

  /** The byte and packet counters of one interface. */
  class Stats {
    var txBytes: int
    var rxBytes: int
    var txPackets: int
    var rxPackets: int

    ghost function State(): Totals
      reads this
    {
      Totals(txBytes, txPackets, rxBytes, rxPackets)
    }

    constructor ()
      ensures State() == Totals(0, 0, 0, 0)
    {
      txBytes, rxBytes, txPackets, rxPackets := 0, 0, 0, 0;
    }
  }

  const UNKNOWN := 0  // the type of a stream not yet classified

  class Conn {
    var reverse: Conn?
    var s: Stream
    var key: FlowKey
    var cli2srv: bool
    var closed: bool
    var waitClose: bool
    var bytes: int
    var packets: int
    var oldBytes: int    // as of the last report, like the next
    var oldPackets: int
    var streamType: int
    var dpiTotal: int

    /** Nothing has been reported or classified. */
    ghost predicate Unused()
      reads this
    {
      oldBytes == 0 && oldPackets == 0 && streamType == UNKNOWN && dpiTotal == 0
    }

    ghost function State(): ConnState
      reads this
    {
      ConnState(key, cli2srv, closed, waitClose, bytes, packets)
    }

    constructor (s: Stream, k: FlowKey, cli2srv: bool)
      ensures this.s == s && State() == NewConn(k, cli2srv) && Unused()
    {
      this.s, key, this.cli2srv, reverse := s, k, cli2srv, null;
      closed, waitClose, bytes, packets := false, false, 0, 0;
      oldBytes, oldPackets, streamType, dpiTotal := 0, 0, UNKNOWN, 0;
    }

    method Reset(k: FlowKey, cli2srv: bool)
      modifies this
      ensures State() == NewConn(k, cli2srv) && Unused() && s == old(s)
    {
      key := k;
      closed := false;
      waitClose := false;
      streamType := UNKNOWN;
      dpiTotal := 0;
      this.cli2srv := cli2srv;
      bytes := 0;
      packets := 0;
      oldBytes := 0;
      oldPackets := 0;
    }

    /** The stream is open, and this is its connection on `side`. */
    ghost predicate Serves(side: Side)
      reads this, s, s.Repr
    {
      && s.Linked() && !s.closed
      && match side
         case Client => this == s.c2s && cli2srv
         case Server => this == s.s2c && !cli2srv
         case Neither => false
    }

    /** `stat`: counts a packet, and remembers it or looks up what it acknowledges. */
    method Stat(p: Packet, ghost side: Side)
      requires Serves(side)
      modifies this`bytes, this`packets, s`rtts, s`Repr, s.rttCache.Repr(), s.stat
      ensures Serves(side) && fresh(s.Repr - old(s.Repr)) && old(s.Repr) <= s.Repr && s.stat == old(s.stat)
      ensures s.State() == Counted(old(s.State()), side, p)
      ensures s.stat.State() == Credited(old(s.stat.State()), side, p)
    {
      hide RttCache.Valid, RttCache.Model, Pushed, Pulled, Stream.State, Serves, Stream.Owns, Sampled;
      Bump(p, side);
      SideFacts(side);
      if cli2srv {
        StatClient(p);
      } else {
        StatServer(p);
      }
    }

    method Bump(p: Packet, ghost side: Side)
      requires Serves(side)
      modifies this`bytes, this`packets
      ensures Serves(side) && s.stat.State() == old(s.stat.State())
      ensures s.State() == if side.Client? then old(s.State()).(c2s := Bumped(old(s.State()).c2s, p))
                           else old(s.State()).(s2c := Bumped(old(s.State()).s2c, p))
    {
      hide RttCache.Valid, RttCache.Model;
      bytes := bytes + p.size;
      packets := packets + 1;
    }

    lemma SideFacts(side: Side)
      requires Serves(side)
      ensures s.Linked() && s.Owns() && s.Used() && s.State().rtts == s.rtts
      ensures !side.Neither? && (side.Client? <==> cli2srv)
      ensures key == if side.Client? then s.State().c2s.key else s.State().s2c.key
    {
    }

    method StatClient(p: Packet)
      requires Serves(Client)
      modifies s`Repr, s.rttCache.Repr(), s.stat
      ensures Serves(Client) && fresh(s.Repr - old(s.Repr)) && old(s.Repr) <= s.Repr
      ensures s.State() == old(s.State()).(cache := Pushed(old(s.State()).cache, SentKey(key, p), p.ts))
      ensures s.stat.State() == Credited(old(s.stat.State()), Client, p)
    {
      hide RttCache.Valid, Pushed, RttCache.Model;
      var size := if p.size > 0 then p.size else 1;
      var exist, ok := s.rttCache.Push(RttKey(key.net, key.transport, p.seqno + size), p.ts);
      s.Repr := s.Repr + s.rttCache.Repr();
      if ok {
        s.stat.txBytes := s.stat.txBytes + p.size;
        s.stat.txPackets := s.stat.txPackets + 1;
      }
    }

    method StatServer(p: Packet)
      requires Serves(Server)
      modifies s`rtts, s.rttCache.Repr(), s.stat
      ensures Serves(Server) && s.Repr == old(s.Repr)
      ensures var r := Pulled(old(s.State()).cache, AckedKey(key, p));
        s.State() == old(s.State()).(cache := r.rest,
          rtts := if r.value.Some? then Sampled(old(s.rtts), Quot(p.ts - r.value.value.seen, 1000)) else old(s.rtts))
      ensures s.stat.State() == Credited(old(s.stat.State()), Server, p)
    {
      hide RttCache.Valid, Pulled, RttCache.Model;
      var value, ok := s.rttCache.Pull(RttKey(key.net.Reverse(), key.transport.Reverse(), p.ack));
      if ok {
        s.stat.rxBytes := s.stat.rxBytes + p.size;
        s.stat.rxPackets := s.stat.rxPackets + 1;
        if value.Some? {
          s.AddSample(Quot(p.ts - value.value.seen, 1000));
        }
      }
    }

    /** `handle`: one packet of this direction. */
    method Handle(p: Packet, ghost side: Side)
      requires Serves(side)
      modifies s.Repr, s.stat
      ensures s == old(s) && s.stat == old(s.stat)
      ensures s.Linked() && fresh(s.Repr - old(s.Repr)) && old(s.Repr) <= s.Repr
      ensures s.State() == HandledOn(old(s.State()), side, p)
      ensures s.stat.State() == if old(closed) then old(s.stat.State()) else Credited(old(s.stat.State()), side, p)
    {
      hide RttCache.Valid, RttCache.Model, Counted, Serves, Stream.State, Stream.Linked;
      SideFlags(side);
      if closed {
        return;
      }
      var finish := false;
      if p.Ends() {
        // A stream is over once both directions have seen FIN or RST.
        Mark(side);
        if reverse.waitClose {
          finish := true;
        }
      }
      Stat(p, side);
      SideFlags(side);
      if finish {
        Close(side);
      }
    }

    lemma SideFlags(side: Side)
      requires Serves(side)
      ensures s.Linked() && !s.closed && !side.Neither? && reverse != null && s.stat !in s.Repr
      ensures this in s.Repr && reverse in s.Repr && s.rttCache.Repr() <= s.Repr && s in s.Repr
      ensures closed == if side.Client? then s.State().c2s.closed else s.State().s2c.closed
      ensures reverse.waitClose == OtherEnded(s.State(), side)
    {
    }

    method Mark(ghost side: Side)
      requires Serves(side)
      modifies this`waitClose
      ensures Serves(side) && s.stat == old(s.stat) && s.stat.State() == old(s.stat.State())
      ensures reverse == old(reverse) && reverse != null && reverse.waitClose == OtherEnded(old(s.State()), side)
      ensures s.State() == if side.Client? then old(s.State()).(c2s := old(s.State()).c2s.(waitClose := true))
                           else old(s.State()).(s2c := old(s.State()).s2c.(waitClose := true))
    {
      hide RttCache.Valid, RttCache.Model;
      waitClose := true;
    }

    /** `close`: closes both connections and then the stream. */
    method Close(ghost side: Side)
      requires Serves(side)
      modifies s.Repr
      ensures s == old(s) && s.Linked() && s.Repr == old(s.Repr) && s.stat == old(s.stat)
      ensures s.State() == Shut(BothClosed(old(s.State())))
    {
      hide RttCache.Valid, RttCache.Model, RttCache.Repr;
      CloseConns(side);
      s.Close();
    }

    method CloseConns(ghost side: Side)
      requires Serves(side)
      modifies this`closed, reverse`closed
      ensures s.Linked() && s.State() == BothClosed(old(s.State()))
    {
      hide RttCache.Valid, RttCache.Model, RttCache.Repr;
      closed := true;
      reverse.closed := true;
    }
  }

  const RTT_TIMEOUT := 300_000_000_000  // the default of the flag, in nanoseconds

  class Stream {
    var key: FlowKey
    var c2s: Conn?
    var s2c: Conn?
    var connMap: map<FlowKey, Conn>
    var firstSeen: int
    var lastSeen: int
    var closed: bool
    var rtts: Rtts  // the fields SYNRTT, MinRTT, MaxRTT, TotalRTT and RttCount
    var rttCache: RttCache?
    var stat: Stats?
    ghost var Repr: set<object>

    /** The connections belong to this stream. */
    ghost predicate OwnsConns()
      reads this, Repr
    {
      && this in Repr
      && (c2s != null ==> c2s in Repr && c2s.s == this)
      && (s2c != null ==> s2c in Repr && s2c.s == this && s2c != c2s)
    }

    /** The cache belongs to this stream, and is apart from the connections. */
    ghost predicate OwnsCache()
      reads this, Repr
    {
      rttCache != null ==>
        && rttCache in Repr && rttCache.list in Repr && rttCache.Repr() <= Repr
        && this !in rttCache.Repr() && c2s !in rttCache.Repr() && s2c !in rttCache.Repr()
        && rttCache.Valid()
    }

    /** The parts that exist belong to this stream alone. */
    ghost predicate Owns()
      reads this, Repr
    {
      && OwnsConns() && OwnsCache() && stat !in Repr
      && (c2s == null <==> rttCache == null) && (s2c == null <==> rttCache == null)
    }

    ghost predicate Used()
      reads this
    {
      rttCache != null
    }

    /** The value of a stream that has been opened before. */
    ghost function State(): StreamState
      requires Owns() && Used()
      reads this, Repr
    {
      StreamState(key, c2s.State(), s2c.State(), firstSeen, lastSeen, closed, rtts, rttCache.Model(), rttCache.closed)
    }

    /** A stream that has been opened: the connection map leads to both sides while it is open. */
    ghost predicate Linked()
      reads this, Repr
    {
      && Owns() && Used() && stat != null
      && c2s.reverse == s2c && s2c.reverse == c2s
      && connMap == (if closed then map[] else map[key := c2s][key.Reverse() := s2c])
      && (rttCache.closed <==> closed)
    }

    ghost predicate Valid()
      reads this, Repr
    {
      Linked() && Healthy(State())
    }

    /** A stream that can be opened: one that never was, or one that is closed. */
    ghost predicate Idle()
      reads this, Repr
    {
      if Used() then Valid() && closed else Owns() && connMap == map[]
    }

    constructor ()
      ensures Idle() && !Used() && fresh(Repr) && Repr == {this}
    {
      c2s, s2c, rttCache, stat := null, null, null, null;
      connMap, closed := map[], false;
      Repr := {this};
    }

    /** `reset`: opens the stream for `k`. Fresh or recycled, the result is the same. */
    method Reset(k: FlowKey, stat: Stats, ts: int)
      requires Idle() && stat !in Repr
      modifies Repr
      ensures Valid() && fresh(Repr - old(Repr)) && old(Repr) <= Repr && this.stat == stat && State() == Opened(k, ts)
      ensures c2s.Unused() && s2c.Unused()
    {
      hide Sound, RttCache.Valid, State, Conn.State, Valid, RttCache.Model;
      ClosedCache();
      ResetFields(k, stat, ts);
      ResetCache();
      IsOpened(k, ts);
    }

    /** Everything but the cache. */
    method ResetFields(k: FlowKey, stat: Stats, ts: int)
      requires Owns() && connMap == map[] && stat !in Repr
      modifies this, c2s, s2c
      ensures OwnsConns() && OwnsCache() && rttCache == old(rttCache) && this.stat == stat && stat !in Repr
      ensures rttCache != null ==> rttCache.Model() == old(rttCache.Model())
      ensures key == k && firstSeen == ts && lastSeen == ts && !closed && rtts == NO_RTTS
      ensures c2s != null && s2c != null && c2s.reverse == s2c && s2c.reverse == c2s
      ensures c2s.State() == NewConn(k, true) && s2c.State() == NewConn(k.Reverse(), false)
      ensures c2s.Unused() && s2c.Unused()
      ensures connMap == map[k := c2s][k.Reverse() := s2c]
      ensures Repr == old(Repr) + {c2s, s2c} && fresh(Repr - old(Repr))
    {
      hide RttCache.Valid, Conn.State, Conn.Unused, RttCache.Model;
      firstSeen := ts;
      lastSeen := ts;
      closed := false;
      rtts := NO_RTTS;
      this.stat := stat;
      ResetConns(k);
    }

    lemma IsOpened(k: FlowKey, ts: int)
      requires Owns() && Used() && stat != null && c2s.reverse == s2c && s2c.reverse == c2s
      requires c2s.State() == NewConn(k, true) && s2c.State() == NewConn(k.Reverse(), false)
      requires key == k && firstSeen == ts && lastSeen == ts && !closed && rtts == NO_RTTS
      requires rttCache.Model() == [] && !rttCache.closed && connMap == map[k := c2s][k.Reverse() := s2c]
      ensures Valid() && State() == Opened(k, ts)
    {
      OpenedHealthy(k, ts);
    }

    method ResetCache()
      requires OwnsCache() && this in Repr && (rttCache != null ==> rttCache.Model() == [])
      modifies this`rttCache, this`Repr, rttCache
      ensures OwnsCache() && rttCache != null && rttCache.Model() == [] && !rttCache.closed
      ensures old(rttCache) != null ==> rttCache == old(rttCache) && rttCache.Repr() == old(rttCache.Repr())
      ensures old(rttCache) == null ==> fresh(rttCache.Repr())
      ensures Repr == old(Repr) + rttCache.Repr()
    {
      if rttCache == null {
        rttCache := new RttCache(RTT_TIMEOUT);
        Repr := Repr + rttCache.Repr();
      }
      rttCache.Reset();
    }

    lemma ClosedCache()
      requires Idle()
      ensures Owns() && connMap == map[] && (Used() ==> rttCache.Model() == [])
    {
    }

    method ResetConns(k: FlowKey)
      requires OwnsConns() && connMap == map[]
      modifies this`key, this`c2s, this`s2c, this`connMap, this`Repr, c2s, s2c
      ensures OwnsConns() && Repr == old(Repr) + {c2s, s2c}
      ensures c2s == old(c2s) || fresh(c2s)
      ensures s2c == old(s2c) || fresh(s2c)
      ensures key == k && c2s != null && s2c != null && c2s.reverse == s2c && s2c.reverse == c2s
      ensures c2s.State() == NewConn(k, true) && s2c.State() == NewConn(k.Reverse(), false)
      ensures c2s.Unused() && s2c.Unused()
      ensures connMap == map[k := c2s][k.Reverse() := s2c]
    {
      key := k;
      if c2s == null {
        c2s := new Conn(this, k, true);
        Repr := Repr + {c2s};
      } else {
        c2s.Reset(k, true);
      }
      if s2c == null {
        s2c := new Conn(this, k.Reverse(), false);
        Repr := Repr + {s2c};
      } else {
        s2c.Reset(k.Reverse(), false);
      }
      c2s.reverse := s2c;
      s2c.reverse := c2s;
      connMap := connMap[k := c2s];
      connMap := connMap[k.Reverse() := s2c];
    }

    /** A round-trip time, in microseconds. */
    method AddSample(rtt: int)
      modifies this`rtts
      ensures rtts == Sampled(old(rtts), rtt)
    {
      rtts := rtts.(count := rtts.count + 1);
      if rtt < 0 {
        return;
      }
      if rtts.count == 1 {
        rtts := rtts.(syn := rtt);
      }
      if rtt < rtts.min {
        rtts := rtts.(min := rtt);
      }
      if rtt > rtts.max {
        rtts := rtts.(max := rtt);
      }
      rtts := rtts.(total := rtts.total + rtt);
    }

    /** `close`: empties the stream; it is then ready to be returned to its pool. */
    method Close()
      requires Linked()
      modifies Repr
      ensures Linked() && Repr == old(Repr) && stat == old(stat) && key == old(key)
      ensures c2s == old(c2s) && s2c == old(s2c)
      ensures State() == if old(closed) then old(State()) else Shut(old(State()))
      ensures closed && (old(Valid()) ==> Valid() && Idle())
    {
      hide RttCache.Valid, RttCache.Model, Healthy;
      ghost var before := State();
      if Healthy(before) {
        ShutHealthy(before);
      }
      if !closed {
        closed := true;
        ResetMap();
        rttCache.RemoveAll();
      }
    }

    method ResetMap()
      requires connMap == map[key := c2s][key.Reverse() := s2c]
      modifies this`connMap
      ensures connMap == map[]
    {
      connMap := connMap - {key};
      connMap := connMap - {key.Reverse()};
    }

    /** The body of the loop in `dump`, for one packet of the queue. */
    method Deliver(p: Packet)
      requires Valid()
      modifies Repr, stat
      ensures Valid() && fresh(Repr - old(Repr)) && old(Repr) <= Repr && stat == old(stat)
      ensures State() == Handled(old(State()), p)
      ensures stat.State() == if old(closed) || SideOf(old(key), p.key).Neither? then old(stat.State())
                              else Credited(old(stat.State()), SideOf(old(key), p.key), p)
    {
      hide RttCache.Valid, RttCache.Model, Counted, Healthy, State, Handled, HandledOn, Linked, Owns, Conn.Serves;
      ConnFor(p);
      HandledHealthy(State(), p);
      if closed || p.key !in connMap {
        return;
      }
      var conn := connMap[p.key];
      Touch(p.ts, conn, SideOf(key, p.key));
      conn.Handle(p, SideOf(key, p.key));
    }

    /** The connection map leads every packet of the stream to the side it belongs to, which is not closed. */
    lemma ConnFor(p: Packet)
      requires Valid()
      ensures Linked() && Owns() && Used() && stat != null && stat !in Repr && this in Repr
      ensures State().closed == closed && State().key == key
      ensures closed || p.key !in connMap <==> closed || SideOf(key, p.key).Neither?
      ensures closed || p.key !in connMap ==> Handled(State(), p) == State()
      ensures p.key in connMap ==>
        var side := SideOf(key, p.key);
        var conn := connMap[p.key];
        !side.Neither? && conn.s == this && conn.Serves(side) && !conn.closed && !closed
        && Handled(State(), p) == HandledOn(Seen(State(), p.ts), side, p)
    {
      hide HandledOn;
    }

    method Touch(ts: int, ghost conn: Conn, ghost side: Side)
      requires Linked() && conn.s == this && conn.Serves(side)
      modifies this`lastSeen
      ensures Linked() && conn.Serves(side) && State() == Seen(old(State()), ts) && Repr == old(Repr)
      ensures stat.State() == old(stat.State())
    {
      hide RttCache.Valid, RttCache.Model;
      if lastSeen < ts {
        lastSeen := ts;
      }
    }
  }
}
