/** Which of the fields found in a struct type JSON recognises: the selecting half of `typeFields`. */
module Fields {
  import opened Bytes
  import opened FieldOrder

  // ---------- what is promised ----------

  /** The fields of `s` that have the name and the depth of `f`; with `tagged`, only those with a tag. */
  function Rivals(s: seq<Field>, f: Field, tagged: bool): seq<Field> {
    if s == [] then []
    else (if Rival(s[0], f, tagged) then [s[0]] else []) + Rivals(s[1..], f, tagged)
  }

  predicate Rival(g: Field, f: Field, tagged: bool) {
    g.name == f.name && |g.index| == |f.index| && (tagged ==> g.tag)
  }

  /**
     A field survives if none of its name is nearer to the top, and it is the only one of its name at that depth
     with a tag, or the only one at all there.
   */
  ghost predicate Survives(s: seq<Field>, f: Field) {
    && f in s
    && (forall g | g in s && g.name == f.name :: |f.index| <= |g.index|)
    && |Rivals(s, f, f.tag)| == 1
  }

  /** `r` has exactly the survivors, one of each name, in the order of their indices. */
  ghost predicate Selected(s: seq<Field>, r: seq<Field>) {
    && (forall f :: f in r <==> Survives(s, f))
    && OneOfEachName(r)
    && IsSorted(ByIndex, r)
  }

  // ---------- counting does not depend on order ----------

  lemma {:induction false} RivalsSplit(s: seq<Field>, t: seq<Field>, f: Field, tagged: bool)
    ensures Rivals(s + t, f, tagged) == Rivals(s, f, tagged) + Rivals(t, f, tagged)
    decreases |s|
  {
    if s == [] {
      assert s + t == t;
    } else {
      assert (s + t)[0] == s[0] && (s + t)[1..] == s[1..] + t;
      RivalsSplit(s[1..], t, f, tagged);
    }
  }

  lemma {:induction false} RivalsCount(s: seq<Field>, f: Field, tagged: bool, g: Field)
    ensures multiset(Rivals(s, f, tagged))[g] == if Rival(g, f, tagged) then multiset(s)[g] else 0
    decreases |s|
  {
    if s != [] {
      RivalsCount(s[1..], f, tagged, g);
      assert s == [s[0]] + s[1..];
      hide Rival;
    }
  }

  lemma RivalsPermuted(s: seq<Field>, t: seq<Field>, f: Field, tagged: bool)
    requires multiset(s) == multiset(t)
    ensures |Rivals(s, f, tagged)| == |Rivals(t, f, tagged)|
  {
    var a, b := multiset(Rivals(s, f, tagged)), multiset(Rivals(t, f, tagged));
    forall g ensures a[g] == b[g] {
      RivalsCount(s, f, tagged, g);
      RivalsCount(t, f, tagged, g);
    }
    assert a == b;
    assert |a| == |b|;
  }

  lemma SurvivesPermuted(s: seq<Field>, t: seq<Field>, f: Field)
    requires multiset(s) == multiset(t)
    ensures Survives(s, f) <==> Survives(t, f)
  {
    RivalsPermuted(s, t, f, f.tag);
    assert forall g :: g in s <==> g in multiset(s);
    assert forall g :: g in t <==> g in multiset(t);
  }

  // ---------- one name ----------

  /** All of one name, the shallowest first. */
  ghost predicate IsGroup(s: seq<Field>) {
    && s != []
    && (forall f | f in s :: f.name == s[0].name)
    && (forall i, j | 0 <= i < j < |s| :: |s[i].index| <= |s[j].index|)
  }

  lemma {:induction false} RivalsNone(s: seq<Field>, f: Field, tagged: bool)
    requires forall g | g in s :: !Rival(g, f, tagged)
    ensures Rivals(s, f, tagged) == []
    decreases |s|
  {
    if s != [] {
      RivalsNone(s[1..], f, tagged);
    }
  }

  lemma {:induction false} RivalsAll(s: seq<Field>, f: Field, tagged: bool)
    requires forall g | g in s :: Rival(g, f, tagged)
    ensures Rivals(s, f, tagged) == s
    decreases |s|
  {
    if s != [] {
      RivalsAll(s[1..], f, tagged);
    }
  }

  lemma RivalsOf(x: Field, f: Field, tagged: bool)
    ensures Rivals([x], f, tagged) == if Rival(x, f, tagged) then [x] else []
  {
    assert Rivals([x][1..], f, tagged) == [];
  }

  /** Only the fields at the top count, of a group whose first `n` fields are at the top. */
  lemma TopOnly(s: seq<Field>, n: nat, f: Field)
    requires IsGroup(s) && 0 < n <= |s|
    requires forall j | 0 <= j < |s| :: |s[j].index| == |s[0].index| <==> j < n
    ensures Survives(s, f) <==> f in s[..n] && |Rivals(s[..n], f, f.tag)| == 1
  {
    assert s == s[..n] + s[n..];
    if f in s && |f.index| == |s[0].index| {
      RivalsSplit(s[..n], s[n..], f, f.tag);
      RivalsNone(s[n..], f, f.tag);
    }
    assert s[0] in s;
    forall g | g in s ensures |s[0].index| <= |g.index| {
      var j :| 0 <= j < |s| && s[j] == g;
    }
  }

  /** The top of a group: all alike in name and depth. */
  ghost predicate IsTop(s: seq<Field>) {
    s != [] && forall f | f in s :: f.name == s[0].name && |f.index| == |s[0].index|
  }

  /** Where exactly one field of the top is tagged, it alone survives. */
  lemma OneTagged(s: seq<Field>, k: nat, f: Field)
    requires IsTop(s) && k < |s| && s[k].tag && forall j | 0 <= j < |s| && j != k :: !s[j].tag
    ensures f in s && |Rivals(s, f, f.tag)| == 1 <==> f == s[k]
  {
    if f in s {
      var a, b := s[..k], s[k + 1..];
      assert s == a + [s[k]] + b;
      RivalsSplit(a + [s[k]], b, f, f.tag);
      RivalsSplit(a, [s[k]], f, f.tag);
      RivalsOf(s[k], f, f.tag);
      if f.tag {
        RivalsNone(a, f, f.tag);
        RivalsNone(b, f, f.tag);
        assert f == s[k];
      } else {
        RivalsAll(s, f, f.tag);
        assert |s| >= 2;
      }
    }
  }

  /** Where two fields of the top are tagged, none survives. */
  lemma TwoTagged(s: seq<Field>, p: nat, q: nat, f: Field)
    requires IsTop(s) && p < q < |s| && s[p].tag && s[q].tag
    ensures !(f in s && |Rivals(s, f, f.tag)| == 1)
  {
    if f in s {
      var a, b := s[..q], s[q..];
      assert s == a + b && a == a[..p] + a[p..];
      RivalsSplit(a, b, f, f.tag);
      RivalsSplit(a[..p], a[p..], f, f.tag);
      assert Rival(a[p..][0], f, f.tag) && Rival(b[0], f, f.tag);
    }
  }

  /** Where no field of the top is tagged, one survives only if it is alone. */
  lemma NoneTagged(s: seq<Field>, f: Field)
    requires IsTop(s) && forall g | g in s :: !g.tag
    ensures f in s && |Rivals(s, f, f.tag)| == 1 <==> |s| == 1 && f == s[0]
  {
    if f in s {
      RivalsAll(s, f, f.tag);
    }
  }

  /** `dominantField`: the one survivor among the fields of one name, if there is one. */
  method DominantField(fields: seq<Field>) returns (dominant: Option<Field>)
    requires IsGroup(fields)
    ensures forall f :: Survives(fields, f) <==> dominant == Some(f)
  {
    hide Survives, Rivals, Rival;
    var length := |fields[0].index|;
    var tagged := -1;  // index of the first tagged field
    var n := |fields|;
    var i := 0;
    while i < n
      invariant 0 <= i <= n <= |fields| && -1 <= tagged < i
      invariant n < |fields| ==> i == n && |fields[n].index| > length
      invariant forall j | 0 <= j < i :: |fields[j].index| == length && (fields[j].tag ==> j == tagged)
      invariant tagged >= 0 ==> fields[tagged].tag
      decreases |fields| - i, n
    {
      var f := fields[i];
      if |f.index| > length {
        n := i;
      } else {
        if f.tag {
          if tagged >= 0 {
            Conflict(fields, tagged, i);
            return None;
          }
          tagged := i;
        }
        i := i + 1;
      }
    }
    TopOf(fields, n);
    forall f ensures Survives(fields, f) <==> f in fields[..n] && |Rivals(fields[..n], f, f.tag)| == 1 {
      TopOnly(fields, n, f);
    }
    if tagged >= 0 {
      forall f ensures f in fields[..n] && |Rivals(fields[..n], f, f.tag)| == 1 <==> f == fields[tagged] {
        OneTagged(fields[..n], tagged, f);
      }
      return Some(fields[tagged]);
    }
    forall f ensures f in fields[..n] && |Rivals(fields[..n], f, f.tag)| == 1 <==> n == 1 && f == fields[0] {
      NoneTagged(fields[..n], f);
    }
    return if n > 1 then None else Some(fields[0]);
  }

  lemma TopOf(s: seq<Field>, n: nat)
    requires IsGroup(s) && n <= |s| && (n < |s| ==> |s[n].index| > |s[0].index|)
    requires forall j | 0 <= j < n :: |s[j].index| == |s[0].index|
    ensures 0 < n && IsTop(s[..n])
    ensures forall j | 0 <= j < |s| :: |s[j].index| == |s[0].index| <==> j < n
  {
    assert forall f | f in s[..n] :: f in s;
  }

  /** Two tagged fields at the top: nothing survives. */
  lemma Conflict(s: seq<Field>, p: nat, q: nat)
    requires IsGroup(s) && p < q < |s| && s[p].tag && s[q].tag
    requires forall j | 0 <= j <= q :: |s[j].index| == |s[0].index|
    ensures forall f :: !Survives(s, f)
  {
    var n := q + 1;
    while n < |s| && |s[n].index| == |s[0].index|
      invariant q < n <= |s| && forall j | 0 <= j < n :: |s[j].index| == |s[0].index|
    {
      n := n + 1;
    }
    assert n < |s| ==> |s[0].index| <= |s[n].index|;
    TopOf(s, n);
    forall f ensures !Survives(s, f) {
      TopOnly(s, n, f);
      TwoTagged(s[..n], p, q, f);
    }
  }

  // ---------- all names ----------

  /** Fields of other names neither survive nor matter. */
  lemma SurvivesApart(s: seq<Field>, t: seq<Field>, f: Field)
    requires forall x, y | x in s && y in t :: x.name != y.name
    ensures Survives(s + t, f) <==> Survives(s, f) || Survives(t, f)
    ensures !(Survives(s, f) && Survives(t, f))
  {
    RivalsSplit(s, t, f, f.tag);
    if f in s {
      RivalsNone(t, f, f.tag);
    }
    if f in t {
      RivalsNone(s, f, f.tag);
    }
  }

  /** In a list sorted by name, the fields of the first name are a group, and the others have other names. */
  lemma GroupOf(s: seq<Field>, k: nat)
    requires IsSorted(ByName, s) && 0 < k <= |s|
    requires forall j | 0 <= j < k :: s[j].name == s[0].name
    requires k < |s| ==> s[k].name != s[0].name
    ensures IsGroup(s[..k])
    ensures forall x, y | x in s[..k] && y in s[k..] :: x.name != y.name
    ensures IsSorted(ByName, s[k..])
  {
    forall j | k <= j < |s| ensures s[j].name != s[0].name {
      LexTotal(s[k].name, s[0].name);
      LexTotal(s[j].name, s[k].name);
      assert !Before(ByName, s[k], s[0]) && (k < j ==> !Before(ByName, s[j], s[k]));
    }
    forall p, q | 0 <= p < q < k ensures |s[p].index| <= |s[q].index| {
      assert !Before(ByName, s[q], s[p]);
    }
  }

  predicate OneOfEachName(s: seq<Field>) {
    forall i, j | 0 <= i < j < |s| :: s[i].name != s[j].name
  }

  /** `out` holds the survivors of what has been read. */
  ghost predicate Kept(out: seq<Field>, read: seq<Field>) {
    OneOfEachName(out) && forall f :: f in out <==> Survives(read, f)
  }

  lemma KeptNothing()
    ensures Kept([], [])
  {
  }

  lemma KeptMore(out: seq<Field>, read: seq<Field>, group: seq<Field>, dominant: Option<Field>)
    requires Kept(out, read) && forall x, y | x in read && y in group :: x.name != y.name
    requires forall f :: Survives(group, f) <==> dominant == Some(f)
    ensures Kept(if dominant.Some? then out + [dominant.value] else out, read + group)
  {
    forall f ensures Survives(read + group, f) <==> Survives(read, f) || dominant == Some(f) {
      SurvivesApart(read, group, f);
    }
    if dominant.Some? {
      assert Survives(group, dominant.value);
      forall x | x in out ensures x.name != dominant.value.name {
        assert Survives(read, x);
      }
    }
  }

  /** A name that only one field has. */
  lemma Alone(f: Field)
    ensures IsGroup([f]) && forall g :: Survives([f], g) <==> g == f
  {
    forall g ensures Survives([f], g) <==> g == f {
      RivalsOf(f, g, g.tag);
    }
  }

  /** How many fields from `i` on have the name of the first. */
  method SameName(a: array<Field>, i: nat) returns (advance: nat)
    requires i < a.Length
    ensures 0 < advance <= a.Length - i
    ensures forall j | i <= j < i + advance :: a[j].name == a[i].name
    ensures i + advance < a.Length ==> a[i + advance].name != a[i].name
  {
    var name := a[i].name;
    advance := 1;
    while i + advance < a.Length && a[i + advance].name == name
      invariant 0 < advance <= a.Length - i
      invariant forall j | i <= j < i + advance :: a[j].name == name
    {
      advance := advance + 1;
    }
  }

  /** The in-place filter: the survivors are written over what has already been read, and over nothing else. */
  method Filter(a: array<Field>) returns (w: nat)
    requires IsSorted(ByName, a[..])
    modifies a
    ensures w <= a.Length && Kept(a[..w], old(a[..]))
  {
    hide Survives, Filtered, IsSorted, IsGroup;
    var i := 0;
    w := 0;
    ghost var was := a[..];
    FilterStarts(was);
    while i < a.Length
      invariant w <= i <= a.Length && Filtered(a[..], was, i, w)
    {
      FilterUnread(a[..], was, i, w);
      var advance := SameName(a, i);
      FilterGroup(a[..], was, i, w, advance);
      assert a[i..i + advance] == a[..][i..i + advance];
      var dominant := Choose(a[i..i + advance]);
      FilterNext(a[..], was, i, w, advance, dominant);
      if dominant.Some? {
        ghost var now := a[..];
        a[w] := dominant.value;
        assert a[..] == now[w := dominant.value];
        w := w + 1;
      }
      i := i + advance;
    }
    FilterEnds(a[..], was, w);
    assert a[..][..w] == a[..w];
  }

  /** The first `i` fields have been read, and the first `w` are their survivors; the rest is untouched. */
  ghost predicate Filtered(now: seq<Field>, was: seq<Field>, i: nat, w: nat) {
    && w <= i <= |was| && |now| == |was| && now[i..] == was[i..]
    && Kept(now[..w], was[..i]) && IsSorted(ByName, was[i..])
    && forall x, y | x in was[..i] && y in was[i..] :: x.name != y.name
  }

  lemma FilterStarts(was: seq<Field>)
    requires IsSorted(ByName, was)
    ensures Filtered(was, was, 0, 0)
  {
    hide Kept, IsSorted;
    KeptNothing();
    assert was[0..] == was && was[..0] == [];
  }

  lemma FilterEnds(now: seq<Field>, was: seq<Field>, w: nat)
    requires Filtered(now, was, |was|, w)
    ensures Kept(now[..w], was)
  {
    hide Kept, IsSorted;
    assert was[..|was|] == was;
  }

  lemma FilterUnread(now: seq<Field>, was: seq<Field>, i: nat, w: nat)
    requires Filtered(now, was, i, w)
    ensures |now| == |was| && forall j | i <= j < |was| :: now[j] == was[j]
  {
    hide Kept, IsSorted;
    Unread(now, was, i);
  }

  lemma FilterGroup(now: seq<Field>, was: seq<Field>, i: nat, w: nat, k: nat)
    requires Filtered(now, was, i, w) && 0 < k <= |was| - i
    requires forall j | i <= j < i + k :: now[j].name == now[i].name
    requires i + k < |now| ==> now[i + k].name != now[i].name
    ensures IsGroup(now[i..i + k]) && now[i..i + k] == was[i..i + k] && now[i + k..] == was[i + k..]
    ensures was[..i + k] == was[..i] + was[i..i + k] && IsSorted(ByName, was[i + k..])
    ensures forall x, y | x in was[..i] && y in was[i..i + k] :: x.name != y.name
    ensures forall x, y | x in was[..i + k] && y in was[i + k..] :: x.name != y.name
  {
    hide Kept, IsSorted, IsGroup;
    Unread(now, was, i);
    FilterStep(was, i, k);
  }

  /** The survivor of a group, if there is one, is written where everything has been read. */
  lemma FilterNext(now: seq<Field>, was: seq<Field>, i: nat, w: nat, k: nat, dominant: Option<Field>)
    requires Filtered(now, was, i, w) && 0 < k <= |was| - i
    requires now[i + k..] == was[i + k..] && was[..i + k] == was[..i] + was[i..i + k] && IsSorted(ByName, was[i + k..])
    requires forall x, y | x in was[..i] && y in was[i..i + k] :: x.name != y.name
    requires forall x, y | x in was[..i + k] && y in was[i + k..] :: x.name != y.name
    requires forall f :: Survives(was[i..i + k], f) <==> dominant == Some(f)
    ensures dominant.None? ==> Filtered(now, was, i + k, w)
    ensures dominant.Some? ==> Filtered(now[w := dominant.value], was, i + k, w + 1)
  {
    hide Kept, IsSorted, Survives;
    KeptMore(now[..w], was[..i], was[i..i + k], dominant);
    if dominant.Some? {
      var next := now[w := dominant.value];
      assert next[..w + 1] == now[..w] + [dominant.value];
      assert next[i + k..] == now[i + k..];
    }
  }

  /** A name that only one field has needs no choice. */
  method Choose(group: seq<Field>) returns (dominant: Option<Field>)
    requires IsGroup(group)
    ensures forall f :: Survives(group, f) <==> dominant == Some(f)
  {
    hide Survives;
    if |group| == 1 {
      Alone(group[0]);
      assert group == [group[0]];
      dominant := Some(group[0]);
    } else {
      dominant := DominantField(group);
    }
  }

  lemma Unread(now: seq<Field>, was: seq<Field>, i: nat)
    requires i <= |now| == |was| && now[i..] == was[i..]
    ensures forall j | i <= j < |was| :: now[j] == was[j]
    ensures forall k | i <= k <= |was| :: now[i..k] == was[i..k] && now[k..] == was[k..]
  {
    forall j | i <= j < |was| ensures now[j] == was[j] {
      assert now[i..][j - i] == was[i..][j - i];
    }
  }

  lemma FilterStep(was: seq<Field>, i: nat, k: nat)
    requires i < |was| && 0 < k <= |was| - i && IsSorted(ByName, was[i..])
    requires forall j | i <= j < i + k :: was[j].name == was[i].name
    requires i + k < |was| ==> was[i + k].name != was[i].name
    requires forall x, y | x in was[..i] && y in was[i..] :: x.name != y.name
    ensures var group := was[i..i + k];
      && IsGroup(group) && was[..i + k] == was[..i] + group && IsSorted(ByName, was[i + k..])
      && (forall x, y | x in was[..i] && y in group :: x.name != y.name)
      && (forall x, y | x in was[..i + k] && y in was[i + k..] :: x.name != y.name)
  {
    var rest := was[i..];
    GroupOf(rest, k);
    assert rest[..k] == was[i..i + k];
    assert rest[k..] == was[i + k..] && was[..i + k] == was[..i] + rest[..k];
    assert forall y | y in rest[..k] :: y in rest;
    assert forall y | y in rest[k..] :: y in rest;
  }

  /** The selecting half of `typeFields`. */
  method Select(a: array<Field>) returns (n: nat)
    modifies a
    ensures n <= a.Length && Selected(old(a[..]), a[..n])
  {
    hide Survives;
    assert a[..a.Length] == a[..];
    Sort(ByName, a, a.Length);
    assert a[..a.Length] == a[..];
    ghost var sorted := a[..];
    n := Filter(a);
    ghost var kept := a[..n];
    Sort(ByIndex, a, n);
    KeptIsSelected(old(a[..]), sorted, kept, a[..n]);
  }

  lemma KeptIsSelected(s: seq<Field>, sorted: seq<Field>, kept: seq<Field>, r: seq<Field>)
    requires multiset(sorted) == multiset(s) && Kept(kept, sorted)
    requires multiset(r) == multiset(kept) && IsSorted(ByIndex, r)
    ensures Selected(s, r)
  {
    forall f ensures f in r <==> Survives(s, f) {
      SurvivesPermuted(s, sorted, f);
      assert f in r <==> f in multiset(r);
      assert f in kept <==> f in multiset(kept);
    }
    NamesPermuted(kept, r);
  }

  /** One of each name, in whatever order. */
  lemma NamesPermuted(s: seq<Field>, t: seq<Field>)
    requires OneOfEachName(s) && multiset(t) == multiset(s)
    ensures OneOfEachName(t)
  {
    forall i, j | 0 <= i < j < |t| ensures t[i].name != t[j].name {
      assert t[i] in multiset(s) && t[j] in multiset(s);
      var p :| 0 <= p < |s| && s[p] == t[i];
      var q :| 0 <= q < |s| && s[q] == t[j];
      if t[i] == t[j] {
        Twice(t, i, j);
        Once(s, p);
      }
    }
  }

  lemma Twice(t: seq<Field>, i: nat, j: nat)
    requires i < j < |t| && t[i] == t[j]
    ensures multiset(t)[t[i]] >= 2
  {
    assert t == t[..j] + t[j..];
    assert t[i] in t[..j] && t[j] in t[j..];
  }

  lemma Once(s: seq<Field>, p: nat)
    requires OneOfEachName(s) && p < |s|
    ensures multiset(s)[s[p]] == 1
  {
    var a, b := s[..p], s[p + 1..];
    assert s == a + [s[p]] + b;
    assert s[p] !in a && s[p] !in b;
  }
}
