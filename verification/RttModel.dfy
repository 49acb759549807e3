/** The sequence that the RTT cache (common/cache/cache.go) keeps as a linked list and a map. */
module RttModel {
  import opened Bytes

  /** A flow of packets between two endpoints. */
  datatype Flow = Flow(src: nat, dst: nat) {
    function Reverse(): Flow {
      Flow(dst, src)
    }
  }

  datatype RttKey = RttKey(net: Flow, transport: Flow, seqno: int)

  datatype Entry = Entry(key: RttKey, seen: int)

  predicate SameFlow(a: RttKey, b: RttKey) {
    a.net == b.net && a.transport == b.transport
  }

  /** The position of `key`, or the length of the list. */
  function Find(s: seq<Entry>, key: RttKey): (i: nat)
    ensures i <= |s| && (i < |s| ==> s[i].key == key)
    ensures forall j | 0 <= j < i :: s[j].key != key
  {
    if s == [] || s[0].key == key then 0 else Find(s[1..], key) + 1
  }

  predicate Holds(s: seq<Entry>, key: RttKey) {
    Find(s, key) < |s|
  }

  predicate DistinctKeys(s: seq<Entry>) {
    forall i, j | 0 <= i < j < |s| :: s[i].key != s[j].key
  }

  function Without(s: seq<Entry>, i: nat): seq<Entry>
    requires i < |s|
  {
    s[..i] + s[i + 1..]
  }

  /** A new key joins at the back; a known one moves to the front. */
  function Pushed(s: seq<Entry>, key: RttKey, ts: int): seq<Entry> {
    var i := Find(s, key);
    if i < |s| then [Entry(key, ts)] + Without(s, i) else s + [Entry(key, ts)]
  }

  /** The value last removed, and what stays. */
  datatype Scan = Scan(value: Option<Entry>, rest: seq<Entry>)

  /** Removes the entries of the key's flow up to the first that is too new; others are passed over. */
  function Sweep(s: seq<Entry>, key: RttKey): Scan {
    if s == [] then Scan(None, [])
    else if !SameFlow(s[0].key, key) then
      var r := Sweep(s[1..], key);
      Scan(r.value, [s[0]] + r.rest)
    else if s[0].key.seqno > key.seqno + 1 then Scan(None, s)
    else
      var r := Sweep(s[1..], key);
      Scan(if r.value.Some? then r.value else Some(s[0]), r.rest)
  }

  /** A swept entry answers for the key only if it is a neighbour. */
  function Near(value: Option<Entry>, key: RttKey): Option<Entry> {
    if value.Some? && (value.value.key.seqno == key.seqno + 1 || value.value.key.seqno == key.seqno - 1)
    then value else None
  }

  function Pulled(s: seq<Entry>, key: RttKey): Scan {
    var i := Find(s, key);
    if i < |s| then Scan(Some(s[i]), s[i + 1..])
    else Scan(Near(Sweep(s, key).value, key), Sweep(s, key).rest)
  }

  predicate Expired(e: Entry, duration: int, now: int) {
    duration != 0 && now - e.seen > duration
  }

  /** The clock is read again for every entry; `k` readings have been made. */
  function Purged(s: seq<Entry>, duration: int, clock: nat -> int, k: nat): seq<Entry> {
    if s != [] && Expired(s[0], duration, clock(k)) then Purged(s[1..], duration, clock, k + 1) else s
  }

  // ---------- what the operations promise ----------

  /** Where a sweep stops: at the first entry of the flow that is too new. */
  function StopsAt(s: seq<Entry>, key: RttKey): (n: nat)
    ensures n <= |s|
    ensures forall j | 0 <= j < n :: SameFlow(s[j].key, key) ==> s[j].key.seqno <= key.seqno + 1
    ensures n < |s| ==> SameFlow(s[n].key, key) && s[n].key.seqno > key.seqno + 1
  {
    if s == [] || (SameFlow(s[0].key, key) && s[0].key.seqno > key.seqno + 1) then 0 else StopsAt(s[1..], key) + 1
  }

  /** The entries of other flows, in order. */
  function Others(s: seq<Entry>, key: RttKey): seq<Entry>
  {
    if s == [] then []
    else (if SameFlow(s[0].key, key) then [] else [s[0]]) + Others(s[1..], key)
  }

  /** The entries of the key's flow, in order. */
  function Own(s: seq<Entry>, key: RttKey): seq<Entry>
  {
    if s == [] then []
    else (if SameFlow(s[0].key, key) then [s[0]] else []) + Own(s[1..], key)
  }

  lemma AssocEntries(a: seq<Entry>, b: seq<Entry>, c: seq<Entry>)
    ensures (a + b) + c == a + (b + c)
  {
  }

  /** The two parts are all there is. */
  lemma {:induction false} OwnAndOthers(s: seq<Entry>, key: RttKey)
    ensures multiset(Own(s, key)) + multiset(Others(s, key)) == multiset(s)
    ensures forall e | e in Own(s, key) :: SameFlow(e.key, key)
    ensures forall e | e in Others(s, key) :: !SameFlow(e.key, key)
  {
    if s != [] {
      assert s == [s[0]] + s[1..];
      OwnAndOthers(s[1..], key);
    }
  }

  /** A sweep removes exactly the entries of the flow before the stop, and reports the last of them. */
  lemma {:induction false} SweepExact(s: seq<Entry>, key: RttKey)
    ensures var n := StopsAt(s, key);
      var own := Own(s[..n], key);
      && Sweep(s, key).rest == Others(s[..n], key) + s[n..]
      && Sweep(s, key).value == if own == [] then None else Some(own[|own| - 1])
  {
    var n := StopsAt(s, key);
    if n == 0 {
      assert s[..0] == [] && s[0..] == s;
    } else {
      SweepExact(s[1..], key);
      FirstOfFlow(s, n, key);
      hide Own, Others;
      AssocEntries([s[0]], Others(s[1..][..n - 1], key), s[n..]);
      AssocEntries([], Others(s[1..][..n - 1], key), s[n..]);
    }
  }

  /** The first of `n` entries goes to its part. */
  lemma FirstOfFlow(s: seq<Entry>, n: nat, key: RttKey)
    requires 0 < n <= |s|
    ensures var same := SameFlow(s[0].key, key);
      var rest := s[1..][..n - 1];
      && s[n..] == s[1..][n - 1..]
      && Others(s[..n], key) == (if same then [] else [s[0]]) + Others(rest, key)
      && Own(s[..n], key) == (if same then [s[0]] else []) + Own(rest, key)
  {
    var t := s[..n];
    assert t[0] == s[0] && t[1..] == s[1..][..n - 1];
  }

  /** The entry at `j` has expired when it is looked at. */
  predicate ExpiredAt(s: seq<Entry>, j: nat, duration: int, clock: nat -> int, k: nat) {
    j < |s| && Expired(s[j], duration, clock(k + j))
  }

  lemma ReadLater(s: seq<Entry>, duration: int, clock: nat -> int, k: nat, j: nat)
    requires 0 < j && s != []
    ensures ExpiredAt(s, j, duration, clock, k) == ExpiredAt(s[1..], j - 1, duration, clock, k + 1)
  {
    hide Expired;
    assert k + 1 + (j - 1) == k + j;
  }

  /** A purge drops the entries that have expired when they are looked at, up to the first that has not. */
  lemma {:induction false} PurgeExact(s: seq<Entry>, duration: int, clock: nat -> int, k: nat)
    ensures var n := |s| - |Purged(s, duration, clock, k)|;
      && 0 <= n <= |s| && Purged(s, duration, clock, k) == s[n..]
      && (forall j: nat | j < n :: ExpiredAt(s, j, duration, clock, k))
      && !ExpiredAt(s, n, duration, clock, k)
    decreases |s|
  {
    if s != [] && Expired(s[0], duration, clock(k)) {
      assert ExpiredAt(s, 0, duration, clock, k);
      PurgeExact(s[1..], duration, clock, k + 1);
      var n := |s| - |Purged(s, duration, clock, k)|;
      hide Expired, Purged, ExpiredAt;
      forall j: nat | 0 < j <= n ensures
        ExpiredAt(s, j, duration, clock, k) == ExpiredAt(s[1..], j - 1, duration, clock, k + 1)
      {
        ReadLater(s, duration, clock, k, j);
      }
      forall j: nat | j < n ensures ExpiredAt(s, j, duration, clock, k) {
        if j > 0 {
          ReadLater(s, duration, clock, k, j);
        }
      }
    }
  }

  /** At a fixed time that is the longest expired prefix. */
  lemma PurgeFixed(s: seq<Entry>, duration: int, now: int)
    ensures var n := |s| - |Purged(s, duration, _ => now, 0)|;
      && 0 <= n <= |s| && Purged(s, duration, _ => now, 0) == s[n..]
      && (forall j | 0 <= j < n :: Expired(s[j], duration, now))
      && (n < |s| ==> !Expired(s[n], duration, now))
  {
    PurgeExact(s, duration, _ => now, 0);
    var n := |s| - |Purged(s, duration, _ => now, 0)|;
    forall j: nat | j < n ensures Expired(s[j], duration, now) {
      assert ExpiredAt(s, j, duration, _ => now, 0);
    }
  }

  // ---------- what every operation keeps ----------

  lemma PushedKeeps(s: seq<Entry>, key: RttKey, ts: int)
    requires DistinctKeys(s)
    ensures DistinctKeys(Pushed(s, key, ts)) && Holds(Pushed(s, key, ts), key)
    ensures |Pushed(s, key, ts)| == |s| + if Holds(s, key) then 0 else 1
  {
    var t := Pushed(s, key, ts);
    assert t[if Holds(s, key) then 0 else |s|].key == key;
  }

  /** The entries with other keys, in order. */
  function Except(s: seq<Entry>, key: RttKey): seq<Entry> {
    if s == [] then [] else (if s[0].key == key then [] else [s[0]]) + Except(s[1..], key)
  }

  lemma {:induction false} ExceptSplit(a: seq<Entry>, b: seq<Entry>, key: RttKey)
    ensures Except(a + b, key) == Except(a, key) + Except(b, key)
    decreases |a|
  {
    if a == [] {
      assert a + b == b;
    } else {
      assert (a + b)[0] == a[0] && (a + b)[1..] == a[1..] + b;
      ExceptSplit(a[1..], b, key);
    }
  }

  /** A push sets the time of its key, which is found first if it was known and last if not; all else stays in order. */
  lemma PushedOrder(s: seq<Entry>, key: RttKey, ts: int)
    requires DistinctKeys(s)
    ensures var t := Pushed(s, key, ts);
      && Find(t, key) == (if Holds(s, key) then 0 else |s|) && t[Find(t, key)] == Entry(key, ts)
      && Except(t, key) == Except(s, key)
  {
    if Holds(s, key) {
      KnownOrder(s, Find(s, key), Entry(key, ts));
    } else {
      NewOrder(s, Entry(key, ts));
    }
  }

  lemma KnownOrder(s: seq<Entry>, i: nat, e: Entry)
    requires i < |s| && s[i].key == e.key
    ensures Except([e] + Without(s, i), e.key) == Except(s, e.key)
  {
    var a, b := s[..i], s[i + 1..];
    ExceptMoved(a, s[i], b, e, e.key);
    hide Except;
    SplitAt(s, i);
    AssocEntries([e], a, b);
  }

  lemma SplitAt(s: seq<Entry>, i: nat)
    requires i < |s|
    ensures s[..i] + [s[i]] + s[i + 1..] == s
  {
  }

  lemma NewOrder(s: seq<Entry>, e: Entry)
    requires !Holds(s, e.key)
    ensures Find(s + [e], e.key) == |s| && Except(s + [e], e.key) == Except(s, e.key)
  {
    ExceptSplit(s, [e], e.key);
    ExceptOne(e);
    FindLast(s, e);
    hide Except;
    assert Except(s, e.key) + [] == Except(s, e.key);
  }

  lemma FindLast(s: seq<Entry>, e: Entry)
    requires !Holds(s, e.key)
    ensures Find(s + [e], e.key) == |s|
  {
    assert (s + [e])[|s|].key == e.key;
    assert forall j | 0 <= j < |s| :: (s + [e])[j] == s[j];
  }

  lemma ExceptMoved(a: seq<Entry>, d: Entry, b: seq<Entry>, e: Entry, key: RttKey)
    requires d.key == key == e.key
    ensures Except([e] + a + b, key) == Except(a + [d] + b, key)
  {
    ExceptOne(e);
    ExceptOne(d);
    ExceptSplit(a, [d], key);
    ExceptSplit(a + [d], b, key);
    ExceptSplit([e], a, key);
    ExceptSplit([e] + a, b, key);
    ExceptSplit(a, b, key);
  }

  lemma ExceptOne(e: Entry)
    ensures Except([e], e.key) == []
  {
    assert [e][1..] == [];
  }

  /**
     A pull returns the entry of its key, and leaves what is behind it. Where there is none, it returns the last entry
     that the sweep removes, if that is a neighbour of the key.
   */
  lemma PulledExact(s: seq<Entry>, key: RttKey)
    ensures var r := Pulled(s, key);
      && (forall i | 0 <= i < |s| && Find(s, key) == i :: r == Scan(Some(s[i]), s[i + 1..]) && s[i].key == key)
      && (!Holds(s, key) ==>
            var n := StopsAt(s, key);
            var own := Own(s[..n], key);
            && r.rest == Others(s[..n], key) + s[n..]
            && (r.value.Some? <==> own != [] && -1 <= own[|own| - 1].key.seqno - key.seqno <= 1)
            && (r.value.Some? ==> r.value.value == own[|own| - 1]))
  {
    if !Holds(s, key) {
      var n := StopsAt(s, key);
      SweepExact(s, key);
      OwnNever(s, n, key);
    }
  }

  /** No entry of the flow has the number of a key that is not there. */
  lemma OwnNever(s: seq<Entry>, n: nat, key: RttKey)
    requires n <= |s| && !Holds(s, key)
    ensures forall e | e in Own(s[..n], key) :: e.key.seqno != key.seqno
  {
    OwnAndOthers(s[..n], key);
    forall e | e in Own(s[..n], key) ensures e.key.seqno != key.seqno {
      assert e in multiset(s[..n]);
      var j :| 0 <= j < n && s[j] == e;
    }
  }

  /** Without a duration nothing expires; with one, exactly the oldest prefix of what was seen that long ago. */
  lemma PurgedAges(s: seq<Entry>, duration: int, now: int)
    ensures var n := |s| - |Purged(s, duration, _ => now, 0)|;
      && 0 <= n <= |s| && Purged(s, duration, _ => now, 0) == s[n..]
      && (duration == 0 ==> n == 0)
      && (duration != 0 ==> (forall j | 0 <= j < n :: s[j].seen < now - duration)
                            && (n < |s| ==> s[n].seen >= now - duration))
  {
    PurgeFixed(s, duration, now);
  }

  lemma DistinctCons(e: Entry, s: seq<Entry>)
    requires DistinctKeys(s) && forall f | f in s :: f.key != e.key
    ensures DistinctKeys([e] + s)
  {
  }

  /** A pull that finds something removes at least that, and one that does not may still remove. */
  lemma {:induction false} SweepShrinks(s: seq<Entry>, key: RttKey)
    requires DistinctKeys(s)
    ensures DistinctKeys(Sweep(s, key).rest)
    ensures |Sweep(s, key).rest| <= |s| - if Sweep(s, key).value.Some? then 1 else 0
    ensures forall e | e in Sweep(s, key).rest :: e in s
    ensures Sweep(s, key).value.Some? ==> SameFlow(Sweep(s, key).value.value.key, key)
  {
    if s != [] {
      assert forall e | e in s[1..] :: e in s && e.key != s[0].key;
      SweepShrinks(s[1..], key);
      if !SameFlow(s[0].key, key) {
        DistinctCons(s[0], Sweep(s[1..], key).rest);
      }
    }
  }

  lemma PulledShrinks(s: seq<Entry>, key: RttKey)
    requires DistinctKeys(s)
    ensures var r := Pulled(s, key);
      && DistinctKeys(r.rest) && |r.rest| <= |s| - (if r.value.Some? then 1 else 0)
      && (r.value.Some? ==> SameFlow(r.value.value.key, key) && -1 <= r.value.value.key.seqno - key.seqno <= 1)
  {
    SweepShrinks(s, key);
  }

  // ---------- one flow ----------

  /** All of one flow, in increasing order. */
  predicate Sorted(s: seq<Entry>, flow: RttKey) {
    && (forall i | 0 <= i < |s| :: SameFlow(s[i].key, flow))
    && (forall i, j | 0 <= i < j < |s| :: s[i].key.seqno < s[j].key.seqno)
  }

  lemma {:induction false} SweepSorted(s: seq<Entry>, key: RttKey)
    requires Sorted(s, key)
    ensures Sorted(Sweep(s, key).rest, key)
    ensures forall e | e in Sweep(s, key).rest :: e in s && e.key.seqno > key.seqno + 1
  {
    if s != [] && s[0].key.seqno <= key.seqno + 1 {
      SweepSorted(s[1..], key);
    }
  }

  /** After a pull nothing at or below the acknowledged number is left. */
  lemma PulledSorted(s: seq<Entry>, key: RttKey)
    requires Sorted(s, key)
    ensures Sorted(Pulled(s, key).rest, key)
    ensures forall e | e in Pulled(s, key).rest :: e in s && e.key.seqno > key.seqno
  {
    SweepSorted(s, key);
  }

  datatype Call = Push(seqno: int, ts: int) | Pull(ack: int)

  function RunCalls(s: seq<Entry>, flow: RttKey, calls: seq<Call>): seq<Entry>
    decreases |calls|
  {
    if calls == [] then s
    else
      var before := RunCalls(s, flow, calls[..|calls| - 1]);
      match calls[|calls| - 1]
      case Push(n, ts) => Pushed(before, flow.(seqno := n), ts)
      case Pull(n) => Pulled(before, flow.(seqno := n)).rest
  }

  /** Pushed numbers strictly increase. */
  predicate Increasing(calls: seq<Call>) {
    forall i, j | 0 <= i < j < |calls| && calls[i].Push? && calls[j].Push? :: calls[i].seqno < calls[j].seqno
  }

  /** In a run on one flow the list stays sorted and holds only pushed numbers. */
  lemma {:induction false} RunSorted(flow: RttKey, calls: seq<Call>)
    requires Increasing(calls)
    ensures Sorted(RunCalls([], flow, calls), flow)
    ensures forall e | e in RunCalls([], flow, calls) ::
      exists i | 0 <= i < |calls| :: calls[i].Push? && calls[i].seqno == e.key.seqno
    decreases |calls|
  {
    if calls != [] {
      var n := |calls| - 1;
      var front := calls[..n];
      RunSorted(flow, front);
      var before := RunCalls([], flow, front);
      forall e | e in before ensures exists i | 0 <= i < n :: calls[i].Push? && calls[i].seqno == e.key.seqno {
        var i :| 0 <= i < n && front[i].Push? && front[i].seqno == e.key.seqno;
        assert calls[i] == front[i];
      }
      match calls[n]
      case Push(q, ts) => PushedSorted(before, flow, q, ts);
      case Pull(ack) => PulledSorted(before, flow.(seqno := ack));
    }
  }

  /** A new largest number joins at the back. */
  lemma PushedSorted(s: seq<Entry>, flow: RttKey, n: int, ts: int)
    requires Sorted(s, flow) && forall e | e in s :: e.key.seqno < n
    ensures Sorted(Pushed(s, flow.(seqno := n), ts), flow)
    ensures Pushed(s, flow.(seqno := n), ts) == s + [Entry(flow.(seqno := n), ts)]
  {
    assert forall j | 0 <= j < |s| :: s[j] in s && s[j].key.seqno < n;
    var t := s + [Entry(flow.(seqno := n), ts)];
    assert Pushed(s, flow.(seqno := n), ts) == t;
    hide Pushed, Find;
    assert forall j | 0 <= j < |s| :: t[j] == s[j];
  }

  /** What is left was not acknowledged since it was pushed. */
  lemma {:induction false} RunAcked(flow: RttKey, calls: seq<Call>, i: nat)
    requires Increasing(calls) && i < |calls| && calls[i].Pull?
    ensures forall e | e in RunCalls([], flow, calls) :: e.key.seqno > calls[i].ack || PushedSince(calls, i, e)
    decreases |calls|
  {
    hide Pushed, Pulled, PushedSince;
    var n := |calls| - 1;
    var front := calls[..n];
    var before := RunCalls([], flow, front);
    RunSorted(flow, front);
    if i < n {
      RunAcked(flow, front, i);
      forall e | e in before && e.key.seqno <= calls[i].ack ensures PushedSince(calls, i, e) {
        assert PushedSince(front, i, e);
        StillPushed(calls, i, e);
      }
    }
    match calls[n]
    case Push(q, ts) =>
      PushedFrom(before, flow.(seqno := q), ts);
      JustPushed(calls, i, Entry(flow.(seqno := q), ts));
    case Pull(ack) => PulledSorted(before, flow.(seqno := ack));
  }

  /** The number of `e` was pushed after call `i`. */
  predicate PushedSince(calls: seq<Call>, i: nat, e: Entry) {
    exists j | i < j < |calls| :: calls[j].Push? && calls[j].seqno == e.key.seqno
  }

  lemma StillPushed(calls: seq<Call>, i: nat, e: Entry)
    requires calls != [] && PushedSince(calls[..|calls| - 1], i, e)
    ensures PushedSince(calls, i, e)
  {
    var front := calls[..|calls| - 1];
    var j :| i < j < |front| && front[j].Push? && front[j].seqno == e.key.seqno;
    assert calls[j] == front[j];
  }

  lemma JustPushed(calls: seq<Call>, i: nat, e: Entry)
    requires i < |calls| - 1 && calls[|calls| - 1].Push? && calls[|calls| - 1].seqno == e.key.seqno
    ensures forall f: Entry | f.key == e.key :: PushedSince(calls, i, f)
  {
  }

  lemma PushedFrom(s: seq<Entry>, key: RttKey, ts: int)
    ensures forall e | e in Pushed(s, key, ts) :: e in s || e.key == key
  {
  }
}
