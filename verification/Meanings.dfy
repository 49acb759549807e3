/** What texts decode to, said of the texts themselves. */
module Meanings {
  import opened Bytes
  import opened Grammar
  import opened Quote
  import opened Unambiguous
  import opened Trees
  import opened Spellings

  // ---------- literals ----------

  /** Each of the five kinds of literal has a meaning of its own. */
  lemma LiteralMeans(t: bytes)
    requires IsLiteral(t)
    ensures Meaning(Literal(t)) == JNull <==> t == Ascii("null")
    ensures Meaning(Literal(t)) == JBool(true) <==> t == Ascii("true")
    ensures Meaning(Literal(t)) == JBool(false) <==> t == Ascii("false")
    ensures forall s :: Meaning(Literal(t)) == JNumber(s) <==> IsNumber(t) && t == s
    ensures forall s :: Meaning(Literal(t)) == JString(s) <==> IsString(t) && Unquoted(t) == Some(s)
  {
    LiteralsSpelled();
    Starts(t);
    hide IsString, IsNumber, Unquoted;
    if IsString(t) {
      StringUnquotes(t);
    }
  }

  /** The first byte tells the kinds apart. */
  lemma Starts(t: bytes)
    requires IsLiteral(t)
    ensures t != [] && (IsString(t) <==> t[0] == QUOTE)
    ensures IsNumber(t) <==> t[0] == MINUS || IsDigit(t[0])
  {
    if IsNumber(t) {
      NumberStarts(t);
    }
  }

  lemma NumberStarts(t: bytes)
    requires IsNumber(t)
    ensures t != [] && (t[0] == MINUS || IsDigit(t[0]))
  {
    var n: Number :| n.Valid() && t == n.Text();
    if n.minus == [] {
      assert t[0] == n.whole[0] && n.whole[0] in n.whole;
    }
  }

  // ---------- elements and members in the order of the text ----------

  function ElementCount(es: Elements): nat {
    if es.More? then 1 + ElementCount(es.rest) else 1
  }

  function ElementAt(es: Elements, i: nat): Element
    requires i < ElementCount(es)
  {
    if i == 0 then es.e else ElementAt(es.rest, i - 1)
  }

  /** Where the text of element `i` starts: the comma before it ends the elements before. */
  function ElementPlace(es: Elements, i: nat): nat
    requires i < ElementCount(es)
  {
    if i == 0 then 0 else |YieldElement(es.e)| + 1 + ElementPlace(es.rest, i - 1)
  }

  /** `part` stands in `s` at `n`. */
  predicate Stands(s: bytes, n: nat, part: bytes) {
    n + |part| <= |s| && s[n..n + |part|] == part
  }

  lemma StandsBehind(a: bytes, s: bytes, n: nat, part: bytes)
    requires Stands(s, n, part)
    ensures Stands(a + s, |a| + n, part)
  {
  }

  /** The elements stand in the text one after another, with one comma between two of them. */
  lemma {:induction false} ElementStands(es: Elements, i: nat)
    requires i < ElementCount(es)
    ensures Stands(YieldElements(es), ElementPlace(es, i), YieldElement(ElementAt(es, i)))
    ensures i + 1 < ElementCount(es) ==>
      var next := ElementPlace(es, i + 1);
      && next == ElementPlace(es, i) + |YieldElement(ElementAt(es, i))| + 1
      && Stands(YieldElements(es), next - 1, [',' as int])
  {
    hide YieldElement;
    if i > 0 {
      var a, n := YieldElement(es.e) + [COMMA], ElementPlace(es.rest, i - 1);
      ElementStands(es.rest, i - 1);
      StandsBehind(a, YieldElements(es.rest), n, YieldElement(ElementAt(es, i)));
      if i + 1 < ElementCount(es) {
        StandsBehind(a, YieldElements(es.rest), ElementPlace(es.rest, i) - 1, [COMMA]);
      }
    }
  }

  /** Item `i` of an array is the meaning of its element `i`. */
  lemma {:induction false} ElementMeans(es: Elements)
    ensures |MeaningElements(es)| == ElementCount(es)
    ensures forall i | 0 <= i < ElementCount(es) :: MeaningElements(es)[i] == Meaning(ElementAt(es, i).value)
  {
    hide Meaning;
    if es.More? {
      ElementMeans(es.rest);
    }
  }

  function MemberCount(ms: Members): nat {
    if ms.MoreMembers? then 1 + MemberCount(ms.others) else 1
  }

  function MemberAt(ms: Members, i: nat): Member
    requires i < MemberCount(ms)
  {
    if i == 0 then ms.m else MemberAt(ms.others, i - 1)
  }

  function MemberPlace(ms: Members, i: nat): nat
    requires i < MemberCount(ms)
  {
    if i == 0 then 0 else |YieldMember(ms.m)| + 1 + MemberPlace(ms.others, i - 1)
  }

  lemma {:induction false} MemberStands(ms: Members, i: nat)
    requires i < MemberCount(ms)
    ensures Stands(YieldMembers(ms), MemberPlace(ms, i), YieldMember(MemberAt(ms, i)))
    ensures i + 1 < MemberCount(ms) ==>
      var next := MemberPlace(ms, i + 1);
      && next == MemberPlace(ms, i) + |YieldMember(MemberAt(ms, i))| + 1
      && Stands(YieldMembers(ms), next - 1, [',' as int])
  {
    hide YieldMember;
    if i > 0 {
      var a, n := YieldMember(ms.m) + [COMMA], MemberPlace(ms.others, i - 1);
      MemberStands(ms.others, i - 1);
      StandsBehind(a, YieldMembers(ms.others), n, YieldMember(MemberAt(ms, i)));
      if i + 1 < MemberCount(ms) {
        StandsBehind(a, YieldMembers(ms.others), MemberPlace(ms.others, i) - 1, [COMMA]);
      }
    }
  }

  /** Member `i` is the last one with the key `k`. */
  predicate LastWithKey(ms: Members, k: bytes, i: nat) {
    && i < MemberCount(ms) && Unquoted(MemberAt(ms, i).key) == Some(k)
    && forall j | i < j < MemberCount(ms) :: Unquoted(MemberAt(ms, j).key) != Some(k)
  }

  /** No member has the key `k`. */
  predicate NoneWithKey(ms: Members, k: bytes) {
    forall j | 0 <= j < MemberCount(ms) :: Unquoted(MemberAt(ms, j).key) != Some(k)
  }

  lemma LastShifts(ms: Members, k: bytes)
    requires ms.MoreMembers?
    ensures NoneWithKey(ms, k) <==> Unquoted(ms.m.key) != Some(k) && NoneWithKey(ms.others, k)
    ensures LastWithKey(ms, k, 0) <==> Unquoted(ms.m.key) == Some(k) && NoneWithKey(ms.others, k)
    ensures forall i: nat :: LastWithKey(ms, k, i + 1) <==> LastWithKey(ms.others, k, i)
  {
    hide Unquoted;
    var rest := ms.others;
    assert MemberAt(ms, 0) == ms.m;
    assert forall j | 0 < j < MemberCount(ms) :: MemberAt(ms, j) == MemberAt(rest, j - 1);
    assert forall j | 0 <= j < MemberCount(rest) :: MemberAt(rest, j) == MemberAt(ms, j + 1);
  }

  /** Of the members with one key the last decides; a key that no member has is as before. */
  lemma {:induction false} MemberMeans(ms: Members, fields: map<bytes, Json>, k: bytes)
    requires WfMembers(ms)
    ensures var m := MeaningMembers(ms, fields);
      && (forall i: nat | LastWithKey(ms, k, i) :: k in m && m[k] == Meaning(MemberAt(ms, i).e.value))
      && (NoneWithKey(ms, k) ==> (k in m <==> k in fields) && (k in m ==> m[k] == fields[k]))
      && (NoneWithKey(ms, k) || exists i: nat :: LastWithKey(ms, k, i))
    decreases ms
  {
    hide Meaning, Unquoted, IsString, WfElement;
    StringUnquotes(ms.m.key);
    if ms.MoreMembers? {
      var now := fields[StringValue(ms.m.key) := Meaning(ms.m.e.value)];
      MemberMeans(ms.others, now, k);
      LastShifts(ms, k);
      hide LastWithKey, NoneWithKey;
      forall i: nat | LastWithKey(ms, k, i)
        ensures k in MeaningMembers(ms, fields)
             && MeaningMembers(ms, fields)[k] == Meaning(MemberAt(ms, i).e.value)
      {
        if i > 0 {
          assert LastWithKey(ms.others, k, i - 1);
        }
      }
      if !NoneWithKey(ms.others, k) {
        var i: nat :| LastWithKey(ms.others, k, i);
        assert LastWithKey(ms, k, i + 1);
      }
    } else if Unquoted(ms.m.key) == Some(k) {
      assert LastWithKey(ms, k, 0);
    }
  }

  // ---------- texts ----------

  /** The text `data` decodes to `j`. */
  ghost predicate Denotes(data: bytes, j: Json) {
    exists d: Document :: WfDocument(d) && Yield(d) == data && j == Meaning(d.value)
  }

  /** `data` is `t` between a gap and white space. */
  ghost predicate Around(data: bytes, t: bytes) {
    exists g, a :: Surrounds(data, g, t, a)
  }

  predicate Surrounds(data: bytes, g: bytes, t: bytes, a: bytes) {
    IsGap(g) && IsSpaces(a) && data == g + t + a
  }

  lemma DenotesOne(d: Document, j: Json)
    requires WfDocument(d)
    ensures Denotes(Yield(d), j) <==> j == Meaning(d.value)
  {
    hide WfDocument, Yield, Meaning;
    if Denotes(Yield(d), j) {
      var e: Document :| WfDocument(e) && Yield(e) == Yield(d) && j == Meaning(e.value);
      OneTree(d, e);
    }
  }

  /** A text has one meaning, and nothing else has any. */
  lemma OneMeaning(data: bytes)
    ensures forall d: Document, j | WfDocument(d) && Yield(d) == data :: Denotes(data, j) <==> j == Meaning(d.value)
    ensures IsJson(data) <==> exists j :: Denotes(data, j)
  {
    hide WfDocument, Yield, Meaning;
    forall d: Document, j | WfDocument(d) && Yield(d) == data
      ensures Denotes(data, j) <==> j == Meaning(d.value)
    {
      DenotesOne(d, j);
    }
    if IsJson(data) {
      var d: Document :| WfDocument(d) && Yield(d) == data;
      assert Denotes(data, Meaning(d.value));
    }
  }

  /** A text around that of a value has the meaning of the value. */
  lemma AroundValue(data: bytes, v: Value, j: Json)
    requires WfValue(v) && Around(data, YieldValue(v))
    ensures Denotes(data, j) <==> j == Meaning(v)
  {
    hide WfValue, IsGap, Meaning, YieldValue;
    var g, a :| Surrounds(data, g, YieldValue(v), a);
    DenotesOne(Document(g, v, a), j);
  }

  lemma DenotedAround(data: bytes, j: Json) returns (v: Value)
    requires Denotes(data, j)
    ensures WfValue(v) && Around(data, YieldValue(v)) && j == Meaning(v)
  {
    hide WfValue, IsGap, Meaning, YieldValue;
    var d: Document :| WfDocument(d) && Yield(d) == data && j == Meaning(d.value);
    v := d.value;
    assert Surrounds(data, d.before, YieldValue(v), d.after);
  }

  /** What is spelled `null`, `true` or `false`, as a number or as a string decodes to that, and nothing else does. */
  lemma DenotesLiteral(data: bytes)
    ensures Denotes(data, JNull) <==> Around(data, Ascii("null"))
    ensures Denotes(data, JBool(true)) <==> Around(data, Ascii("true"))
    ensures Denotes(data, JBool(false)) <==> Around(data, Ascii("false"))
    ensures forall t :: Denotes(data, JNumber(t)) <==> IsNumber(t) && Around(data, t)
    ensures forall s ::
      Denotes(data, JString(s)) <==> exists t :: IsString(t) && Unquoted(t) == Some(s) && Around(data, t)
  {
    hide Around, Denotes;
    LiteralsSpelled();
    DenotesText(data, JNull, NULL);
    DenotesText(data, JBool(true), TRUE);
    DenotesText(data, JBool(false), FALSE);
    forall t ensures Denotes(data, JNumber(t)) <==> IsNumber(t) && Around(data, t) {
      if IsNumber(t) {
        DenotesText(data, JNumber(t), t);
      } else if Denotes(data, JNumber(t)) {
        var u := DenotedLiteral(data, JNumber(t));
        LiteralMeans(u);
      }
    }
    forall s
      ensures Denotes(data, JString(s)) <==> exists t :: IsString(t) && Unquoted(t) == Some(s) && Around(data, t)
    {
      DenotesString(data, s);
    }
  }

  /** `j` is spelled in one way only, as `t`. */
  ghost predicate OnlySpelled(j: Json, t: bytes) {
    || (j == JNull && t == NULL) || (j == JBool(true) && t == TRUE) || (j == JBool(false) && t == FALSE)
    || (j == JNumber(t) && IsNumber(t))
  }

  lemma DenotesText(data: bytes, j: Json, t: bytes)
    requires OnlySpelled(j, t)
    ensures Denotes(data, j) <==> Around(data, t)
  {
    LiteralsSpelled();
    LiteralMeans(t);
    hide Around, Denotes, IsNumber, IsString;
    if Denotes(data, j) {
      var u := DenotedLiteral(data, j);
      LiteralMeans(u);
    }
    if Around(data, t) {
      AroundValue(data, Literal(t), j);
    }
  }

  lemma DenotedLiteral(data: bytes, j: Json) returns (u: bytes)
    requires Denotes(data, j) && !j.JArray? && !j.JObject?
    ensures IsLiteral(u) && Around(data, u) && j == Meaning(Literal(u))
  {
    hide Around, Denotes, IsLiteral;
    var v := DenotedAround(data, j);
    u := v.text;
  }

  lemma DenotesString(data: bytes, s: bytes)
    ensures Denotes(data, JString(s)) <==> exists t :: IsString(t) && Unquoted(t) == Some(s) && Around(data, t)
  {
    hide Around, Denotes, IsString, Unquoted;
    if Denotes(data, JString(s)) {
      var u := DenotedLiteral(data, JString(s));
      LiteralMeans(u);
    }
    forall t | IsString(t) && Unquoted(t) == Some(s) && Around(data, t) ensures Denotes(data, JString(s)) {
      LiteralMeans(t);
      AroundValue(data, Literal(t), JString(s));
    }
  }

  lemma TextOfValue(v: Value, j: Json)
    requires WfValue(v)
    ensures Denotes(YieldValue(v), j) <==> j == Meaning(v)
  {
    hide WfValue, Meaning, YieldValue;
    Unit(YieldValue(v));
    assert Surrounds(YieldValue(v), [], YieldValue(v), []);
    AroundValue(YieldValue(v), v, j);
  }

  /** `data` is the text of an array with the elements `es`. */
  ghost predicate ArrayText(data: bytes, es: Elements) {
    WfElements(es) && Around(data, ['[' as int] + YieldElements(es) + [']' as int])
  }

  ghost predicate EmptyArrayText(data: bytes) {
    exists gap :: IsGap(gap) && Around(data, ['[' as int] + gap + [']' as int])
  }

  /** One item for each element, in order: what its text decodes to. */
  ghost predicate ItemsDenoted(es: Elements, items: seq<Json>) {
    |items| == ElementCount(es)
    && forall i | 0 <= i < |items| :: Denotes(YieldValue(ElementAt(es, i).value), items[i])
  }

  lemma {:induction false} ElementWf(es: Elements, i: nat)
    requires WfElements(es) && i < ElementCount(es)
    ensures WfValue(ElementAt(es, i).value)
    decreases i
  {
    if i > 0 {
      ElementWf(es.rest, i - 1);
    }
  }

  lemma ItemsMeant(es: Elements, items: seq<Json>)
    requires WfElements(es)
    ensures ItemsDenoted(es, items) <==> items == MeaningElements(es)
  {
    hide Denotes, WfElements, Meaning, YieldValue;
    ElementMeans(es);
    forall i | 0 <= i < ElementCount(es) && i < |items|
      ensures Denotes(YieldValue(ElementAt(es, i).value), items[i]) <==> items[i] == MeaningElements(es)[i]
    {
      ElementWf(es, i);
      TextOfValue(ElementAt(es, i).value, items[i]);
    }
  }

  /** A text decodes to an array exactly when it is the text of one, and each item is what its element decodes to. */
  lemma DenotesArray(data: bytes, items: seq<Json>)
    ensures Denotes(data, JArray(items)) <==>
      || (items == [] && EmptyArrayText(data))
      || exists es :: ArrayText(data, es) && ItemsDenoted(es, items)
  {
    hide Denotes, Around, ItemsDenoted, WfElements, IsGap, IsLiteral;
    if Denotes(data, JArray(items)) {
      var v := DenotedAround(data, JArray(items));
      if v.Array? {
        ItemsMeant(v.elements, items);
        assert ArrayText(data, v.elements);
      } else {
        assert v.EmptyArray? && IsGap(v.gap);
      }
    }
    if items == [] && EmptyArrayText(data) {
      var gap :| IsGap(gap) && Around(data, [LBRACKET] + gap + [RBRACKET]);
      AroundValue(data, EmptyArray(gap), JArray([]));
    }
    forall es | ArrayText(data, es) && ItemsDenoted(es, items) ensures Denotes(data, JArray(items)) {
      ItemsMeant(es, items);
      AroundValue(data, Array(es), JArray(items));
    }
  }

  ghost predicate ObjectText(data: bytes, ms: Members) {
    WfMembers(ms) && Around(data, ['{' as int] + YieldMembers(ms) + ['}' as int])
  }

  ghost predicate EmptyObjectText(data: bytes) {
    exists spaces :: IsSpaces(spaces) && Around(data, ['{' as int] + spaces + ['}' as int])
  }

  /** A key is there exactly when a member has it, with what the text of the last such member decodes to. */
  ghost predicate FieldsDenoted(ms: Members, fields: map<bytes, Json>) {
    forall k :: if NoneWithKey(ms, k) then k !in fields else k in fields && LastDenotes(ms, k, fields[k])
  }

  ghost predicate LastDenotes(ms: Members, k: bytes, j: Json) {
    exists i: nat :: LastWithKey(ms, k, i) && Denotes(YieldValue(MemberAt(ms, i).e.value), j)
  }

  lemma {:induction false} MemberWf(ms: Members, i: nat)
    requires WfMembers(ms) && i < MemberCount(ms)
    ensures WfValue(MemberAt(ms, i).e.value)
    decreases i
  {
    hide WfValue, IsString, IsGap, IsSpaces;
    assert WfMember(ms.m) && WfElement(ms.m.e);
    if i > 0 {
      MemberWf(ms.others, i - 1);
    }
  }

  lemma LastMeant(ms: Members, k: bytes, j: Json)
    requires WfMembers(ms) && !NoneWithKey(ms, k)
    ensures k in MeaningMembers(ms, map[])
    ensures LastDenotes(ms, k, j) <==> j == MeaningMembers(ms, map[])[k]
  {
    hide Denotes, WfMembers, Meaning, YieldValue, Unquoted;
    MemberMeans(ms, map[], k);
    var i: nat :| LastWithKey(ms, k, i);
    MemberWf(ms, i);
    TextOfValue(MemberAt(ms, i).e.value, j);
    forall l: nat | LastWithKey(ms, k, l) ensures l == i {
    }
  }

  lemma FieldsMeant(ms: Members, fields: map<bytes, Json>)
    requires WfMembers(ms)
    ensures FieldsDenoted(ms, fields) <==> fields == MeaningMembers(ms, map[])
  {
    hide LastDenotes, WfMembers, MeaningMembers, NoneWithKey, LastWithKey;
    var m := MeaningMembers(ms, map[]);
    forall k
      ensures NoneWithKey(ms, k) ==> k !in m
      ensures !NoneWithKey(ms, k) ==> k in m && forall j :: LastDenotes(ms, k, j) <==> j == m[k]
    {
      MemberMeans(ms, map[], k);
      if !NoneWithKey(ms, k) {
        forall j ensures LastDenotes(ms, k, j) <==> j == m[k] {
          LastMeant(ms, k, j);
        }
      }
    }
    if FieldsDenoted(ms, fields) {
      forall k ensures k in fields <==> k in m {
      }
      assert fields.Keys == m.Keys;
      assert fields == m;
    }
  }

  /** The same for objects: of several members with one key the last decides. */
  lemma DenotesObject(data: bytes, fields: map<bytes, Json>)
    ensures Denotes(data, JObject(fields)) <==>
      || (fields == map[] && EmptyObjectText(data))
      || exists ms :: ObjectText(data, ms) && FieldsDenoted(ms, fields)
  {
    hide Denotes, Around, FieldsDenoted, WfMembers, IsLiteral;
    if Denotes(data, JObject(fields)) {
      var v := DenotedAround(data, JObject(fields));
      if v.Object? {
        FieldsMeant(v.members, fields);
        assert ObjectText(data, v.members);
      } else {
        assert v.EmptyObject? && IsSpaces(v.spaces);
      }
    }
    if fields == map[] && EmptyObjectText(data) {
      var spaces :| IsSpaces(spaces) && Around(data, [LBRACE] + spaces + [RBRACE]);
      AroundValue(data, EmptyObject(spaces), JObject(map[]));
    }
    forall ms | ObjectText(data, ms) && FieldsDenoted(ms, fields) ensures Denotes(data, JObject(fields)) {
      FieldsMeant(ms, fields);
      AroundValue(data, Object(ms), JObject(fields));
    }
  }
}
