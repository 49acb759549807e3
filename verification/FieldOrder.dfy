/** The fields found in a struct type, and the two orders in which common/json/encode.go sorts them. */
module FieldOrder {
  import opened Bytes

  /** `info` stands for what selection passes on unseen: the type and the options of the tag. */
  datatype Field = Field(name: bytes, tag: bool, index: seq<int>, info: nat)

  /** Lexicographic order. */
  predicate Lex(a: seq<int>, b: seq<int>) {
    b != [] && (a == [] || a[0] < b[0] || (a[0] == b[0] && Lex(a[1..], b[1..])))
  }

  lemma {:induction false} LexTotal(a: seq<int>, b: seq<int>)
    ensures Lex(a, b) || a == b || Lex(b, a)
    ensures !(Lex(a, b) && Lex(b, a))
    ensures a == b ==> !Lex(a, b)
  {
    if a != [] && b != [] {
      LexTotal(a[1..], b[1..]);
      assert a == [a[0]] + a[1..] && b == [b[0]] + b[1..];
    }
  }

  lemma {:induction false} LexTransitive(a: seq<int>, b: seq<int>, c: seq<int>)
    requires Lex(a, b) && Lex(b, c)
    ensures Lex(a, c)
  {
    if a != [] && a[0] == b[0] == c[0] {
      LexTransitive(a[1..], b[1..], c[1..]);
    }
  }

  /** The common prefix decides nothing. */
  lemma {:induction false} LexFrom(a: seq<int>, b: seq<int>, k: nat)
    requires k <= |a| && k <= |b| && a[..k] == b[..k]
    ensures Lex(a, b) == Lex(a[k..], b[k..])
    decreases k
  {
    if k > 0 {
      assert a[0] == a[..k][0] == b[..k][0] == b[0];
      assert a[1..][..k - 1] == a[..k][1..] == b[..k][1..] == b[1..][..k - 1];
      LexFrom(a[1..], b[1..], k - 1);
      assert a[1..][k - 1..] == a[k..] && b[1..][k - 1..] == b[k..];
    }
  }

  /** The sequences agree up to `k`, where `a` ends or has the lesser number. */
  predicate LessAt(a: seq<int>, b: seq<int>, k: nat) {
    k <= |a| && k < |b| && a[..k] == b[..k] && (k == |a| || a[k] < b[k])
  }

  /** The first difference decides, and what ends first comes first. */
  lemma {:induction false} LexByFirst(a: seq<int>, b: seq<int>)
    ensures Lex(a, b) <==> exists k: nat :: LessAt(a, b, k)
    decreases |a|
  {
    if a == [] || b == [] || a[0] != b[0] {
      assert a[..0] == b[..0];
      assert b != [] && (a == [] || a[0] < b[0]) ==> LessAt(a, b, 0);
      forall k: nat | 0 < k <= |a| && k < |b| ensures a[..k] != b[..k] {
        assert a[..k][0] == a[0] && b[..k][0] == b[0];
      }
    } else {
      LexByFirst(a[1..], b[1..]);
      forall k: nat ensures LessAt(a, b, k + 1) <==> LessAt(a[1..], b[1..], k) {
        if k + 1 <= |a| && k + 1 < |b| {
          assert a[..k + 1] == [a[0]] + a[1..][..k] && b[..k + 1] == [b[0]] + b[1..][..k];
          assert a[..k + 1][1..] == a[1..][..k] && b[..k + 1][1..] == b[1..][..k];
        }
      }
      forall k: nat | LessAt(a, b, k) ensures k > 0 && LessAt(a[1..], b[1..], k - 1) {
        assert k > 0 ==> LessAt(a, b, (k - 1) + 1);
      }
    }
  }

  datatype Order = ByName | ByIndex

  predicate Before(order: Order, x: Field, y: Field) {
    match order
    case ByIndex => Lex(x.index, y.index)
    case ByName =>
      if x.name != y.name then Lex(x.name, y.name)
      else if |x.index| != |y.index| then |x.index| < |y.index|
      else if x.tag != y.tag then x.tag
      else Lex(x.index, y.index)
  }

  /** Both comparisons are strict weak orders; only fields alike in what is compared are incomparable. */
  lemma StrictWeakOrder(order: Order, x: Field, y: Field, z: Field)
    ensures !Before(order, x, x)
    ensures !(Before(order, x, y) && Before(order, y, x))
    ensures Before(order, x, y) && Before(order, y, z) ==> Before(order, x, z)
    ensures Tied(order, x, y) <==> x.index == y.index && (order.ByName? ==> x.name == y.name && x.tag == y.tag)
    ensures Tied(order, x, y) && Tied(order, y, z) ==> Tied(order, x, z)
  {
    LexTotal(x.index, y.index);
    LexTotal(y.index, z.index);
    LexTotal(x.index, z.index);
    LexTotal(x.name, y.name);
    LexTotal(y.name, z.name);
    if Lex(x.index, y.index) && Lex(y.index, z.index) {
      LexTransitive(x.index, y.index, z.index);
    }
    if Lex(x.name, y.name) && Lex(y.name, z.name) {
      LexTransitive(x.name, y.name, z.name);
    }
    LexTotal(x.name, z.name);
    LexTotal(x.index, x.index);
    LexTotal(x.name, x.name);
  }

  predicate Tied(order: Order, x: Field, y: Field) {
    !Before(order, x, y) && !Before(order, y, x)
  }

  method ByIndexLess(x: Field, y: Field) returns (less: bool)
    ensures less == Before(ByIndex, x, y)
  {
    for k := 0 to |x.index|
      invariant k <= |y.index| && x.index[..k] == y.index[..k]
    {
      LexFrom(x.index, y.index, k);
      if k >= |y.index| {
        return false;
      }
      var xik := x.index[k];
      if xik != y.index[k] {
        return xik < y.index[k];
      }
    }
    LexFrom(x.index, y.index, |x.index|);
    return |x.index| < |y.index|;
  }

  method ByNameLess(x: Field, y: Field) returns (less: bool)
    ensures less == Before(ByName, x, y)
  {
    if x.name != y.name {
      return Lex(x.name, y.name);
    }
    if |x.index| != |y.index| {
      return |x.index| < |y.index|;
    }
    if x.tag != y.tag {
      return x.tag;
    }
    less := ByIndexLess(x, y);
  }

  // ---------- sorting ----------

  ghost predicate IsSorted(order: Order, s: seq<Field>) {
    forall i, j | 0 <= i < j < |s| :: !Before(order, s[j], s[i])
  }

  method Less(order: Order, x: Field, y: Field) returns (less: bool)
    ensures less == Before(order, x, y)
  {
    if order == ByName {
      less := ByNameLess(x, y);
    } else {
      less := ByIndexLess(x, y);
    }
  }

  /** `sort.Sort`; all that is used of it is that the result is a sorted permutation. */
  method Sort(order: Order, a: array<Field>, n: nat)
    requires n <= a.Length
    modifies a
    ensures IsSorted(order, a[..n]) && multiset(a[..n]) == multiset(old(a[..n])) && a[n..] == old(a[n..])
  {
    hide IsSorted;
    var sorted := Sorted(order, a[..n]);
    Sizes(sorted, a[..n]);
    for i := 0 to n
      modifies a
      invariant forall j | 0 <= j < i :: a[j] == sorted[j]
      invariant forall j | n <= j < a.Length :: a[j] == old(a[j])
    {
      a[i] := sorted[i];
    }
    assert a[..n] == sorted;
  }

  method Sorted(order: Order, s: seq<Field>) returns (r: seq<Field>)
    ensures IsSorted(order, r) && multiset(r) == multiset(s)
  {
    hide IsSorted;
    r := [];
    NothingSorted(order);
    for i := 0 to |s|
      invariant IsSorted(order, r) && multiset(r) == multiset(s[..i])
    {
      assert s[..i + 1] == s[..i] + [s[i]];
      r := Insert(order, r, s[i]);
    }
    assert s[..|s|] == s;
  }

  lemma NothingSorted(order: Order)
    ensures IsSorted(order, [])
  {
  }

  lemma Sizes(s: seq<Field>, t: seq<Field>)
    requires multiset(s) == multiset(t)
    ensures |s| == |t|
  {
    assert |multiset(s)| == |multiset(t)|;
  }

  method Insert(order: Order, s: seq<Field>, x: Field) returns (r: seq<Field>)
    requires IsSorted(order, s)
    ensures IsSorted(order, r) && multiset(r) == multiset(s) + multiset{x}
  {
    hide Before, IsSorted;
    var k := 0;
    var less := false;
    while k < |s| && !less
      invariant 0 <= k <= |s| && forall j | 0 <= j < k :: !Before(order, x, s[j])
      invariant less ==> k < |s| && Before(order, x, s[k])
      decreases |s| - k, !less
    {
      less := Less(order, x, s[k]);
      if !less {
        k := k + 1;
      }
    }
    InsertSorted(order, s, x, k);
    assert s == s[..k] + s[k..];
    r := s[..k] + [x] + s[k..];
  }

  lemma InsertSorted(order: Order, s: seq<Field>, x: Field, k: nat)
    requires IsSorted(order, s) && k <= |s|
    requires forall j | 0 <= j < k :: !Before(order, x, s[j])
    requires k < |s| ==> Before(order, x, s[k])
    ensures IsSorted(order, s[..k] + [x] + s[k..])
  {
    forall j | k <= j < |s| ensures !Before(order, s[j], x) {
      StrictWeakOrder(order, s[j], x, s[k]);
      StrictWeakOrder(order, x, s[k], s[k]);
    }
  }
}
