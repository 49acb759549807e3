/** The doubly linked ring behind `container/list`, with a sentinel between the last element and the first. */
module LinkedLists {

  class Element<T> {
    var value: T
    var prev: Element?<T>
    var next: Element?<T>

    constructor (value: T)
      ensures this.value == value
    {
      this.value := value;
      prev, next := null, null;
    }
  }

  predicate Distinct<A(==)>(s: seq<A>) {
    forall i, j | 0 <= i < j < |s| :: s[i] != s[j]
  }

  lemma DistinctInsert<A>(s: seq<A>, x: A, i: nat, z: A)
    requires Distinct(s) && x !in s && i <= |s| && z !in s && z != x
    ensures Distinct(s[..i] + [x] + s[i..]) && z !in s[..i] + [x] + s[i..]
  {
  }

  class LinkedList<T(==)> {
    const root: Element<T>
    ghost var nodes: seq<Element<T>>
    var len: nat

    /** The element at position `i`; the sentinel is both before the first and after the last. */
    ghost function At(i: int): Element<T>
      reads this
    {
      if 0 <= i < |nodes| then nodes[i] else root
    }

    ghost predicate Linked(i: int)
      reads this, root, nodes
    {
      At(i).next == At(i + 1) && At(i + 1).prev == At(i)
    }

    ghost predicate Valid()
      reads this, root, nodes
    {
      && root !in nodes && Distinct(nodes) && len == |nodes|
      && forall i | -1 <= i < |nodes| :: Linked(i)
    }

    /** The values from front to back. */
    ghost function Contents(): (r: seq<T>)
      reads this, nodes
    {
      seq(|nodes|, i requires 0 <= i < |nodes| reads this, nodes => nodes[i].value)
    }

    constructor (dummy: T)
      ensures Valid() && nodes == [] && fresh(root)
    {
      root := new Element(dummy);
      nodes, len := [], 0;
      new;
      root.next, root.prev := root, root;
    }

    method Front() returns (e: Element?<T>)
      requires Valid()
      ensures nodes == [] ==> e == null
      ensures nodes != [] ==> e == nodes[0]
    {
      assert Linked(-1);
      e := if len == 0 then null else root.next;
    }

    method Back() returns (e: Element?<T>)
      requires Valid()
      ensures nodes == [] ==> e == null
      ensures nodes != [] ==> e == nodes[|nodes| - 1]
    {
      assert Linked(|nodes| - 1);
      e := if len == 0 then null else root.prev;
    }

    method Next(e: Element<T>, ghost i: nat) returns (n: Element?<T>)
      requires Valid() && i < |nodes| && nodes[i] == e
      ensures n == if i + 1 < |nodes| then nodes[i + 1] else null
    {
      assert Linked(i);
      n := if e.next == root then null else e.next;
    }

    method Prev(e: Element<T>, ghost i: nat) returns (p: Element?<T>)
      requires Valid() && i < |nodes| && nodes[i] == e
      ensures p == if i > 0 then nodes[i - 1] else null
    {
      assert Linked(i - 1);
      p := if e.prev == root then null else e.prev;
    }

    method Remove(e: Element<T>, ghost i: nat)
      requires Valid() && i < |nodes| && nodes[i] == e
      modifies this, root, nodes
      ensures Valid() && nodes == old(nodes[..i] + nodes[i + 1..])
      ensures e !in nodes && e != root && e.value == old(e.value)
      ensures Contents() == old(Contents()[..i] + Contents()[i + 1..])
    {
      hide Contents;
      assert Linked(i - 1) && Linked(i);
      var p, n := e.prev, e.next;
      p.next := n;
      n.prev := p;
      e.prev, e.next := null, null;
      nodes := nodes[..i] + nodes[i + 1..];
      len := len - 1;
      assert forall j | -1 <= j <= |nodes| :: At(j) == old(At(if j < i then j else j + 1));
      forall j | -1 <= j < |nodes| ensures Linked(j) {
        if j != i - 1 {
          assert old(Linked(if j < i then j else j + 1));
        }
      }
      ContentsRemoved(i);
    }

    twostate lemma ContentsRemoved(i: nat)
      requires i < |old(nodes)| && nodes == old(nodes)[..i] + old(nodes)[i + 1..]
      requires forall x | x in old(nodes) :: x.value == old(x.value)
      ensures Contents() == old(Contents())[..i] + old(Contents())[i + 1..]
    {
    }

    twostate lemma ContentsInserted(i: nat, new e: Element<T>)
      requires i <= |old(nodes)| && nodes == old(nodes)[..i] + [e] + old(nodes)[i..]
      requires forall x | x in old(nodes) :: x.value == old(x.value)
      ensures Contents() == old(Contents())[..i] + [e.value] + old(Contents())[i..]
    {
    }

    /** No two positions hold the same element. */
    lemma Apart()
      requires Valid()
      ensures forall j, k | -1 <= j < k < |nodes| :: At(j) != At(k)
    {
    }

    /** Links a loose element in after `at`, which stands at position `i`. */
    method InsertAfter(e: Element<T>, at: Element<T>, ghost i: int)
      requires Valid() && -1 <= i < |nodes| && At(i) == at && e !in nodes && e != root
      modifies this, root, nodes, e
      ensures Valid() && nodes == old(nodes[..i + 1] + [e] + nodes[i + 1..])
      ensures Contents() == old(Contents()[..i + 1] + [e.value] + Contents()[i + 1..])
    {
      hide Contents, Distinct;
      assert Linked(i);
      Apart();
      DistinctInsert(nodes, e, i + 1, root);
      e.prev := at;
      e.next := at.next;
      e.prev.next := e;
      e.next.prev := e;
      nodes := nodes[..i + 1] + [e] + nodes[i + 1..];
      len := len + 1;
      InsertedLinks(i, e);
      ContentsInserted(i + 1, e);
    }

    twostate lemma InsertedLinks(i: int, new e: Element<T>)
      requires old(Valid()) && -1 <= i < |old(nodes)| && e !in old(nodes) && e != root
      requires nodes == old(nodes)[..i + 1] + [e] + old(nodes)[i + 1..]
      requires e.prev == old(At(i)) && e.next == old(At(i + 1))
      requires old(At(i)).next == e && old(At(i + 1)).prev == e
      requires forall k | -1 <= k < |old(nodes)| && k != i :: old(At(k)).next == old(At(k).next)
      requires forall k | 0 <= k <= |old(nodes)| && k != i + 1 :: old(At(k)).prev == old(At(k).prev)
      ensures forall j | -1 <= j < |nodes| :: Linked(j)
    {
      hide Distinct;
      forall j | -1 <= j < |nodes| ensures Linked(j) {
        if j < i {
          assert old(Linked(j));
          assert At(j) == old(At(j)) && At(j + 1) == old(At(j + 1));
        } else if j > i + 1 {
          assert old(Linked(j - 1));
          assert At(j) == old(At(j - 1)) && At(j + 1) == old(At(j));
        } else if j == i {
          assert At(j) == old(At(i)) && At(j + 1) == e;
        } else {
          assert At(j) == e && At(j + 1) == old(At(i + 1));
        }
      }
    }

    method PushBack(value: T) returns (e: Element<T>)
      requires Valid()
      modifies this, root, nodes
      ensures Valid() && fresh(e) && nodes == old(nodes) + [e]
      ensures Contents() == old(Contents()) + [value]
    {
      e := new Element(value);
      assert Linked(|nodes| - 1);
      InsertAfter(e, root.prev, |nodes| - 1);
    }

    method MoveToFront(e: Element<T>, ghost i: nat)
      requires Valid() && i < |nodes| && nodes[i] == e
      modifies this, root, nodes
      ensures Valid() && nodes == [e] + old(nodes[..i] + nodes[i + 1..])
      ensures Contents() == old([Contents()[i]] + (Contents()[..i] + Contents()[i + 1..]))
    {
      hide Valid, Linked, Contents, Distinct;
      ghost var was, values := nodes, Contents();
      IsFront(e, i);
      if root.next == e {
        return;
      }
      Remove(e, i);
      Prepend(e, was[..i] + was[i + 1..], values[i], values[..i] + values[i + 1..]);
      InsertAfter(e, root, -1);
    }

    lemma IsFront(e: Element<T>, i: nat)
      requires Valid() && i < |nodes| && nodes[i] == e
      ensures root.next == e <==> i == 0
      ensures |Contents()| == |nodes| && Contents()[i] == e.value
      ensures i == 0 ==> nodes == [e] + (nodes[..i] + nodes[i + 1..])
                         && Contents() == [Contents()[i]] + (Contents()[..i] + Contents()[i + 1..])
    {
      assert Linked(-1);
    }

    lemma Prepend(e: Element<T>, s: seq<Element<T>>, x: T, t: seq<T>)
      ensures s[..0] + [e] + s[0..] == [e] + s && t[..0] + [x] + t[0..] == [x] + t
    {
    }

    /** Overwrites the value of an element. */
    method SetValue(e: Element<T>, value: T, ghost i: nat)
      requires Valid() && i < |nodes| && nodes[i] == e
      modifies e
      ensures Valid() && Contents() == old(Contents())[i := value]
    {
      assert forall j | -1 <= j < |nodes| :: Linked(j);
      e.value := value;
      assert forall j | -1 <= j < |nodes| :: Linked(j) == old(Linked(j));
    }
  }
}
