/** The RTT cache of common/cache/cache.go: a linked list and a map that must agree. */
module RttCaches {
  import opened Bytes
  import opened LinkedLists
  import opened RttModel

  const NO_ENTRY := Entry(RttKey(Flow(0, 0), Flow(0, 0), 0), 0)

  type Node = Element<Entry>

  /** The map and the list are in bijection: `nodes` are the elements of the list and `s` their values. */
  ghost predicate Agree(nodes: seq<Node>, s: seq<Entry>, cache: map<RttKey, Node>) {
    && |nodes| == |s| && Distinct(nodes)
    && (forall i | 0 <= i < |s| :: s[i].key in cache && cache[s[i].key] == nodes[i])
    && (forall k | k in cache :: Holds(s, k))
  }

  lemma AgreeDistinct(nodes: seq<Node>, s: seq<Entry>, cache: map<RttKey, Node>)
    requires Agree(nodes, s, cache)
    ensures DistinctKeys(s) && |cache| == |s|
  {
    KeysOf(s, cache);
  }

  /** The map has as many keys as the list has elements. */
  lemma {:induction false} KeysOf(s: seq<Entry>, cache: map<RttKey, Node>)
    requires DistinctKeys(s) && (forall i | 0 <= i < |s| :: s[i].key in cache) && forall k | k in cache :: Holds(s, k)
    ensures |cache| == |s|
  {
    if s == [] {
      assert cache == map[];
    } else {
      var n := |s| - 1;
      var less := cache - {s[n].key};
      forall k | k in less ensures Holds(s[..n], k) {
        assert s[..n][Find(s, k)].key == k;
      }
      KeysOf(s[..n], less);
      assert cache.Keys == less.Keys + {s[n].key};
      assert |cache.Keys| == |cache| && |less.Keys| == |less|;
    }
  }

  /** The map finds the element that a search of the list would find. */
  lemma AgreeFind(nodes: seq<Node>, s: seq<Entry>, cache: map<RttKey, Node>, key: RttKey)
    requires Agree(nodes, s, cache)
    ensures key in cache <==> Holds(s, key)
    ensures key in cache ==> cache[key] == nodes[Find(s, key)]
  {
  }

  lemma DistinctWithout<A>(s: seq<A>, i: nat)
    requires Distinct(s) && i < |s|
    ensures Distinct(s[..i] + s[i + 1..])
  {
    var t := s[..i] + s[i + 1..];
    forall j, k | 0 <= j < k < |t| ensures t[j] != t[k] {
      assert s[if j < i then j else j + 1] != s[if k < i then k else k + 1];
    }
  }

  lemma HoldsWithout(s: seq<Entry>, i: nat, key: RttKey)
    requires i < |s| && Holds(s, key) && key != s[i].key
    ensures Holds(Without(s, i), key)
  {
    var j := Find(s, key);
    assert Without(s, i)[if j < i then j else j - 1].key == key;
  }

  lemma MappedWithout(nodes: seq<Node>, s: seq<Entry>, cache: map<RttKey, Node>, i: nat, j: nat)
    requires Agree(nodes, s, cache) && i < |s| && j < |s| - 1
    ensures var t := Without(s, i);
      && t[j].key in cache && t[j].key != s[i].key && cache[t[j].key] == (nodes[..i] + nodes[i + 1..])[j]
  {
    var k := if j < i then j else j + 1;
    assert Without(s, i)[j] == s[k] && (nodes[..i] + nodes[i + 1..])[j] == nodes[k];
    assert nodes[k] != nodes[i];
  }

  lemma AgreeRemove(nodes: seq<Node>, s: seq<Entry>, cache: map<RttKey, Node>, i: nat)
    requires Agree(nodes, s, cache) && i < |s|
    ensures Agree(nodes[..i] + nodes[i + 1..], Without(s, i), cache - {s[i].key})
  {
    hide Holds, Distinct;
    var t, less := Without(s, i), cache - {s[i].key};
    DistinctWithout(nodes, i);
    WithoutSize(s, i);
    hide Without;
    forall j | 0 <= j < |t| ensures t[j].key in less && less[t[j].key] == (nodes[..i] + nodes[i + 1..])[j] {
      MappedWithout(nodes, s, cache, i, j);
    }
    forall k | k in less ensures Holds(t, k) {
      HoldsWithout(s, i, k);
    }
  }

  lemma AgreePush(nodes: seq<Node>, s: seq<Entry>, cache: map<RttKey, Node>, key: RttKey, ts: int, e: Node)
    requires Agree(nodes, s, cache) && !Holds(s, key) && e !in nodes
    ensures Agree(nodes + [e], Pushed(s, key, ts), cache[key := e])
  {
    var t := Pushed(s, key, ts);
    forall k | k in cache[key := e] ensures Holds(t, k) {
      var j := if k == key then |s| else Find(s, k);
      assert t[j].key == k;
    }
  }

  /** Where the element at position `j` stood before the one at `i` moved to the front. */
  function Before(i: nat, j: nat): nat {
    if j == 0 then i else if j <= i then j - 1 else j
  }

  lemma MovedAt(nodes: seq<Node>, s: seq<Entry>, i: nat, e: Entry, j: nat)
    requires |nodes| == |s| && i < |s| && e.key == s[i].key && j < |s|
    ensures Before(i, j) < |s| && |Without(s, i)| == |s| - 1
    ensures ([nodes[i]] + (nodes[..i] + nodes[i + 1..]))[j] == nodes[Before(i, j)]
    ensures ([e] + Without(s, i))[j].key == s[Before(i, j)].key
  {
  }

  lemma AgreeMove(nodes: seq<Node>, s: seq<Entry>, cache: map<RttKey, Node>, key: RttKey, ts: int)
    requires Agree(nodes, s, cache) && Holds(s, key)
    ensures var i := Find(s, key);
      Agree([nodes[i]] + (nodes[..i] + nodes[i + 1..]), Pushed(s, key, ts), cache)
  {
    var i := Find(s, key);
    assert |nodes| == |s|;
    hide Agree, Before, Pushed;
    MovedShape(nodes, s, key, ts);
    MovedAgrees(nodes, s, cache, i, [nodes[i]] + (nodes[..i] + nodes[i + 1..]), Pushed(s, key, ts));
  }

  lemma MovedShape(nodes: seq<Node>, s: seq<Entry>, key: RttKey, ts: int)
    requires |nodes| == |s| && Holds(s, key)
    ensures var i := Find(s, key);
      var moved := [nodes[i]] + (nodes[..i] + nodes[i + 1..]);
      var t := Pushed(s, key, ts);
      && |moved| == |t| == |s|
      && forall j | 0 <= j < |s| :: moved[j] == nodes[Before(i, j)] && t[j].key == s[Before(i, j)].key
  {
    var i := Find(s, key);
    assert Pushed(s, key, ts) == [Entry(key, ts)] + Without(s, i);
    hide Before, Pushed, Without;
    forall j | 0 <= j < |s|
      ensures ([nodes[i]] + (nodes[..i] + nodes[i + 1..]))[j] == nodes[Before(i, j)]
      ensures Pushed(s, key, ts)[j].key == s[Before(i, j)].key
    {
      MovedAt(nodes, s, i, Entry(key, ts), j);
    }
    WithoutSize(s, i);
  }

  lemma WithoutIs(s: seq<Entry>, i: nat)
    requires i < |s|
    ensures Without(s, i) == s[..i] + s[i + 1..]
  {
  }

  lemma WithoutSize(s: seq<Entry>, i: nat)
    requires i < |s|
    ensures |Without(s, i)| == |s| - 1
  {
  }

  lemma MovedAgrees(nodes: seq<Node>, s: seq<Entry>, cache: map<RttKey, Node>, i: nat, moved: seq<Node>, t: seq<Entry>)
    requires Agree(nodes, s, cache) && i < |s| && |moved| == |t| == |s|
    requires forall j | 0 <= j < |s| :: moved[j] == nodes[Before(i, j)] && t[j].key == s[Before(i, j)].key
    ensures Agree(moved, t, cache)
  {
    forall j, k | 0 <= j < k < |s| ensures moved[j] != moved[k] {
      assert Before(i, j) != Before(i, k);
    }
    hide Before;
    forall j | 0 <= j < |s| ensures t[j].key in cache && cache[t[j].key] == moved[j] {
      BeforeInside(i, j, |s|);
    }
    forall k | k in cache ensures Holds(t, k) {
      var j := Find(s, k);
      BeforeOnto(i, j);
      assert t[if j == i then 0 else if j < i then j + 1 else j].key == k;
    }
  }

  lemma BeforeInside(i: nat, j: nat, n: nat)
    requires i < n && j < n
    ensures Before(i, j) < n
  {
  }

  lemma BeforeOnto(i: nat, j: nat)
    ensures Before(i, if j == i then 0 else if j < i then j + 1 else j) == j
  {
  }

  lemma MovedFirst(s: seq<Entry>, key: RttKey, ts: int)
    requires Holds(s, key)
    ensures var i := Find(s, key);
      ([s[i]] + (s[..i] + s[i + 1..]))[0 := Entry(key, ts)] == Pushed(s, key, ts)
  {
  }

  class RttCache {
    var closed: bool
    const duration: int
    var cache: map<RttKey, Node>
    const list: LinkedList<Entry>

    ghost function Repr(): set<object>
      reads this, list
    {
      {this, list, list.root} + set x | x in list.nodes
    }

    ghost predicate Valid()
      reads this, list, list.root, list.nodes
    {
      list.Valid() && Agree(list.nodes, Model(), cache)
    }

    /** The entries from front to back. */
    ghost function Model(): (s: seq<Entry>)
      reads this, list, list.nodes
    {
      list.Contents()
    }

    constructor (duration: int)
      ensures Valid() && fresh(Repr())
      ensures !closed && this.duration == duration && Model() == []
    {
      closed := false;
      this.duration := duration;
      cache := map[];
      list := new LinkedList(NO_ENTRY);
    }

    /** Unlinks an element and forgets its key; returns the next one. */
    method RemoveElement(e: Node, ghost i: nat) returns (next: Element?<Entry>)
      requires Valid() && i < |list.nodes| && list.nodes[i] == e
      modifies Repr()
      ensures Valid() && closed == old(closed) && Model() == Without(old(Model()), i)
      ensures list.nodes == old(list.nodes[..i] + list.nodes[i + 1..]) && Repr() <= old(Repr())
      ensures next == if i < |list.nodes| then list.nodes[i] else null
    {
      hide Agree, LinkedList.Valid;
      AgreeRemove(list.nodes, Model(), cache, i);
      next := list.Next(e, i);
      list.Remove(e, i);
      var kv := e.value;
      cache := cache - {kv.key};
    }

    method Push(key: RttKey, ts: int) returns (exist: bool, ok: bool)
      requires Valid()
      modifies Repr()
      ensures Valid() && closed == old(closed) && fresh(Repr() - old(Repr()))
      ensures ok <==> !closed
      ensures ok ==> exist == Holds(old(Model()), key) && Model() == Pushed(old(Model()), key, ts)
      ensures !ok ==> !exist && Model() == old(Model()) && Repr() == old(Repr())
    {
      hide Agree, LinkedList.Valid;
      if closed {
        return false, false;
      }
      ghost var i := Find(Model(), key);
      AgreeFind(list.nodes, Model(), cache, key);
      if key in cache {
        AgreeMove(list.nodes, Model(), cache, key, ts);
        var e := cache[key];
        MovedFirst(Model(), key, ts);
        list.MoveToFront(e, i);
        assert Model()[0] == e.value;
        list.SetValue(e, e.value.(seen := ts), 0);
        exist := true;
      } else {
        label Pushing:
        var e := list.PushBack(Entry(key, ts));
        AgreePush(old@Pushing(list.nodes), old@Pushing(Model()), cache, key, ts, e);
        cache := cache[key := e];
        exist := false;
      }
      ok := true;
    }

    /** Finds the time a key was seen, or a near one; whatever it overtakes is forgotten. */
    method Pull(key: RttKey) returns (value: Option<Entry>, ok: bool)
      requires Valid()
      modifies Repr()
      ensures Valid() && closed == old(closed) && Repr() <= old(Repr())
      ensures ok <==> !closed
      ensures ok ==> Scan(value, Model()) == Pulled(old(Model()), key)
      ensures !ok ==> value == None && Model() == old(Model()) && Repr() == old(Repr())
    {
      hide Agree, LinkedList.Valid;
      if closed {
        return None, false;
      }
      AgreeFind(list.nodes, Model(), cache, key);
      if key in cache {
        ghost var k := Find(Model(), key);
        value := Some(cache[key].value);
        RemoveUpTo(cache[key], k);
        return value, true;
      }
      value := SweepFlow(key);
      if value.None? || (value.value.key.seqno != key.seqno + 1 && value.value.key.seqno != key.seqno - 1) {
        return None, true;
      }
      ok := true;
    }

    /** The loop of a hit: removes the element at `k` and everything before it, going backwards. */
    method RemoveUpTo(found: Node, ghost k: nat)
      requires Valid() && k < |list.nodes| && list.nodes[k] == found
      modifies Repr()
      ensures Valid() && closed == old(closed) && Model() == old(Model())[k + 1..]
      ensures Repr() <= old(Repr())
    {
      hide Agree, LinkedList.Valid, Outside, Without;
      var e: Element?<Entry> := found;
      ghost var i := k as int;
      ghost var s, nodes := Model(), list.nodes;
      NothingGone(s, k);
      NothingGone(nodes, k);
      while e != null
        invariant Valid() && closed == old(closed) && -1 <= i <= k
        invariant Repr() <= old(Repr())
        invariant |list.nodes| == i + |nodes| - k
        invariant list.nodes == Outside(nodes, i + 1, k) && Model() == Outside(s, i + 1, k)
        invariant e == if i >= 0 then list.nodes[i] else null
        decreases i
      {
        var tmp := list.Prev(e, i);
        Shorter(s, i, k);
        Shorter(nodes, i, k);
        assert Without(Model(), i) == Model()[..i] + Model()[i + 1..] by { WithoutIs(Model(), i); }
        var _ := RemoveElement(e, i);
        e := tmp;
        i := i - 1;
      }
      AllGone(s, k);
    }

    /** The loop of a miss, which passes over other flows and stops at the first entry that is too new. */
    method SweepFlow(key: RttKey) returns (value: Option<Entry>)
      requires Valid()
      modifies Repr()
      ensures Valid() && closed == old(closed) && Scan(value, Model()) == Sweep(old(Model()), key)
      ensures Repr() <= old(Repr())
    {
      hide Agree, Sweep, LinkedList.Valid, Without, Find;
      ghost var s, i := Model(), 0;
      value := None;
      var e := list.Front();
      Front(s, 0);
      while e != null
        invariant Valid() && closed == old(closed) && i <= |list.nodes| && Repr() <= old(Repr())
        invariant e == if i < |list.nodes| then list.nodes[i] else null
        invariant Sweep(s, key) == Ahead(Model()[..i], value, Sweep(Model()[i..], key))
        decreases |list.nodes| - i
      {
        var tmpV := e.value;
        SweepStep(Model(), i, key);
        if SameFlow(tmpV.key, key) {
          if tmpV.key.seqno <= key.seqno + 1 {
            Removed(Model(), i);
            var tmpE := RemoveElement(e, i);
            e := tmpE;
            value := Some(tmpV);
          } else {
            TakeDropEntries(Model(), i);
            return;
          }
        } else {
          e := list.Next(e, i);
          i := i + 1;
        }
      }
      SweepDone(Model(), key);
    }

    /** Forgets the entries at the front that have expired by the clock, which may go on between two readings. */
    method Purge(clock: nat -> int)
      requires Valid()
      modifies Repr()
      ensures Valid() && closed == old(closed) && Model() == Purged(old(Model()), duration, clock, 0)
      ensures Repr() <= old(Repr())
    {
      hide Agree, Purged, Holds, LinkedList.Valid;
      var k: nat := 0;  // readings of the clock
      var e := list.Front();
      while e != null
        invariant Valid() && closed == old(closed) && Repr() <= old(Repr())
        invariant e == if |list.nodes| > 0 then list.nodes[0] else null
        invariant Purged(old(Model()), duration, clock, 0) == Purged(Model(), duration, clock, k)
        decreases |list.nodes|
      {
        var key, timestamp := e.value.key, e.value.seen;
        PurgeStep(Model(), duration, clock, k);
        if duration != 0 && clock(k) - timestamp > duration {
          k := k + 1;
          // Only because the map agrees with the list is there always something to remove, and an end to the loop.
          AgreeFind(list.nodes, Model(), cache, key);
          if key in cache {
            e := RemoveElement(cache[key], 0);
          }
        } else {
          return;
        }
      }
      PurgeNothing(duration, clock, k);
    }

    method Remove(key: RttKey)
      requires Valid()
      modifies Repr()
      ensures Valid() && closed == old(closed) && Repr() <= old(Repr())
      ensures var i := Find(old(Model()), key);
        Model() == if i < |old(Model())| then Without(old(Model()), i) else old(Model())
    {
      hide Agree, LinkedList.Valid;
      AgreeFind(list.nodes, Model(), cache, key);
      if key in cache {
        var _ := RemoveElement(cache[key], Find(Model(), key));
      }
    }

    method RemoveAll()
      requires Valid()
      modifies Repr()
      ensures Valid() && Model() == [] && closed && Repr() <= old(Repr())
    {
      hide Agree, LinkedList.Valid;
      var e := list.Front();
      while e != null
        invariant Valid() && closed == old(closed) && Repr() <= old(Repr())
        invariant e == if |list.nodes| > 0 then list.nodes[0] else null
        decreases |list.nodes|
      {
        e := RemoveElement(e, 0);
      }
      closed := true;
    }

    method Reset()
      requires Valid()
      modifies this`closed
      ensures Valid() && !closed && Model() == old(Model()) && Repr() == old(Repr())
    {
      closed := false;
    }

    method RemoveOldest()
      requires Valid()
      modifies Repr()
      ensures Valid() && closed == old(closed) && Repr() <= old(Repr())
      ensures Model() == if old(Model()) == [] then [] else old(Model())[..|old(Model())| - 1]
    {
      hide Agree, LinkedList.Valid;
      var e := list.Back();
      if e != null {
        ghost var n := |list.nodes| - 1;
        LastGone(Model());
        var _ := RemoveElement(e, n);
      }
    }

    method Len() returns (n: nat)
      requires Valid()
      ensures n == |Model()| == |cache|
    {
      AgreeDistinct(list.nodes, Model(), cache);
      n := list.len;
    }
  }

  // ---------- sequences in the loops ----------

  lemma Front<T>(s: seq<T>, k: nat)
    requires k < |s| || k == 0
    ensures k < |s| ==> s[..k + 1] + s[k + 1..] == s
    ensures s[..0] == [] && s[0..] == s
  {
  }

  /** What is left when the positions from `i` to `k` are gone. */
  function Outside<T>(s: seq<T>, i: nat, k: nat): seq<T>
    requires i <= k + 1 <= |s|
  {
    s[..i] + s[k + 1..]
  }

  lemma NothingGone<T>(s: seq<T>, k: nat)
    requires k < |s|
    ensures Outside(s, k + 1, k) == s
  {
  }

  lemma AllGone<T>(s: seq<T>, k: nat)
    requires k < |s|
    ensures Outside(s, 0, k) == s[k + 1..]
  {
  }

  lemma Shorter<T>(s: seq<T>, i: nat, k: nat)
    requires i <= k < |s|
    ensures var t := Outside(s, i + 1, k);
      && i < |t| && t[..i] + t[i + 1..] == Outside(s, i, k) && |Outside(s, i, k)| == |t| - 1
      && (i > 0 ==> Outside(s, i, k)[i - 1] == t[i - 1])
  {
  }

  /** What a sweep that has passed over `kept`, and removed `value` last, makes of the rest. */
  function Ahead(kept: seq<Entry>, value: Option<Entry>, r: Scan): Scan {
    Scan(if r.value.Some? then r.value else value, kept + r.rest)
  }

  lemma SweepStep(s: seq<Entry>, i: nat, key: RttKey)
    requires i < |s|
    ensures var r := Sweep(s[i..], key);
      var rest := Sweep(s[i + 1..], key);
      && (!SameFlow(s[i].key, key) ==>
            forall value :: Ahead(s[..i], value, r) == Ahead(s[..i + 1], value, rest))
      && (SameFlow(s[i].key, key) && s[i].key.seqno > key.seqno + 1 ==> r == Scan(None, s[i..]))
      && (SameFlow(s[i].key, key) && s[i].key.seqno <= key.seqno + 1 ==>
            forall value :: Ahead(s[..i], value, r) == Ahead(s[..i], Some(s[i]), rest))
  {
    assert s[i..][0] == s[i] && s[i..][1..] == s[i + 1..];
    assert s[..i + 1] == s[..i] + [s[i]];
    AssocEntries(s[..i], [s[i]], Sweep(s[i + 1..], key).rest);
  }

  lemma SweepDone(s: seq<Entry>, key: RttKey)
    ensures Sweep(s[|s|..], key) == Scan(None, []) && s[..|s|] + [] == s
  {
  }

  lemma TakeDropEntries(s: seq<Entry>, i: nat)
    requires i <= |s|
    ensures s[..i] + s[i..] == s
  {
  }

  lemma Removed(s: seq<Entry>, i: nat)
    requires i < |s|
    ensures Without(s, i)[..i] == s[..i] && Without(s, i)[i..] == s[i + 1..]
  {
  }

  /** The head of the list is the first entry with its key. */
  lemma PurgeStep(s: seq<Entry>, duration: int, clock: nat -> int, k: nat)
    requires s != []
    ensures Holds(s, s[0].key) && Find(s, s[0].key) == 0 && Without(s, 0) == s[1..]
    ensures Purged(s, duration, clock, k)
            == if Expired(s[0], duration, clock(k)) then Purged(s[1..], duration, clock, k + 1) else s
  {
  }

  lemma PurgeNothing(duration: int, clock: nat -> int, k: nat)
    ensures Purged([], duration, clock, k) == []
  {
  }

  lemma LastGone(s: seq<Entry>)
    requires s != []
    ensures Without(s, |s| - 1) == s[..|s| - 1]
  {
  }
}
