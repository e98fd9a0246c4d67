/**
  The mergesort that cJSON_Utils runs over the members of an object, and the
  structural comparison that relies on it.

  `SortList` is the value that the in-place list sort computes (see JsonList);
  here it is shown to be an ordered permutation, and `CompareJson`, which sorts both
  objects and walks them in step, is shown to decide equality up to member order.
 */
module JsonSort {
  import opened Basics
  import opened JsonTree
  import opened JsonObjects

  predicate Less(a: Text, b: Text, cs: bool) {
    CompareStrings(a, b, cs) < 0
  }

  /** The early exit of the sort: neighbours strictly ascend. */
  predicate NeighboursAscend<T>(s: seq<Member<T>>, cs: bool) {
    forall i :: 0 <= i < |s| - 1 ==> Less(s[i].key, s[i + 1].key, cs)
  }

  function Merge<T>(a: seq<Member<T>>, b: seq<Member<T>>, cs: bool): (r: seq<Member<T>>)
    ensures |r| == |a| + |b|
  {
    if a == [] then b
    else if b == [] then a
    else if Less(a[0].key, b[0].key, cs) then [a[0]] + Merge(a[1..], b, cs)
    else [b[0]] + Merge(a, b[1..], cs)
  }

  function Middle(n: nat): (m: nat)
    ensures n >= 2 ==> 0 < m < n
  {
    (n + 1) / 2
  }

  function SortList<T>(s: seq<Member<T>>, cs: bool): (r: seq<Member<T>>)
    ensures |r| == |s|
    decreases |s|
  {
    if |s| < 2 || NeighboursAscend(s, cs) then s
    else
      var m := Middle(|s|);
      Merge(SortList(s[..m], cs), SortList(s[m..], cs), cs)
  }

  /** Every earlier key is at most every later one. */
  predicate Sorted<T>(s: seq<Member<T>>, cs: bool) {
    forall i, j :: 0 <= i < j < |s| ==> CompareStrings(s[i].key, s[j].key, cs) <= 0
  }

  predicate Ascending<T>(s: seq<Member<T>>, cs: bool) {
    forall i, j :: 0 <= i < j < |s| ==> Less(s[i].key, s[j].key, cs)
  }

  // ---------------------------------------------------------------- permutation

  lemma {:induction false} MergePermutes<T>(a: seq<Member<T>>, b: seq<Member<T>>, cs: bool)
    ensures multiset(Merge(a, b, cs)) == multiset(a) + multiset(b)
    decreases |a| + |b|
  {
    if a != [] && b != [] {
      assert a == [a[0]] + a[1..] && b == [b[0]] + b[1..];
      if Less(a[0].key, b[0].key, cs) {
        MergePermutes(a[1..], b, cs);
      } else {
        MergePermutes(a, b[1..], cs);
      }
    }
  }

  lemma {:induction false} SortPermutes<T>(s: seq<Member<T>>, cs: bool)
    ensures multiset(SortList(s, cs)) == multiset(s)
    decreases |s|
  {
    hide Merge, NeighboursAscend;
    if |s| >= 2 && !NeighboursAscend(s, cs) {
      var m := Middle(|s|);
      SortPermutes(s[..m], cs);
      SortPermutes(s[m..], cs);
      MergePermutes(SortList(s[..m], cs), SortList(s[m..], cs), cs);
      assert s == s[..m] + s[m..];
    }
  }

  // ---------------------------------------------------------------- order

  lemma {:induction false} NeighboursSuffice<T>(s: seq<Member<T>>, cs: bool, i: nat, j: nat)
    requires NeighboursAscend(s, cs) && i < j < |s|
    ensures Less(s[i].key, s[j].key, cs)
    decreases j
  {
    if j > i + 1 {
      NeighboursSuffice(s, cs, i, j - 1);
      CompareTransitive(s[i].key, s[j - 1].key, s[j].key, cs);
    }
  }

  predicate AtMostAll<T>(k: Text, s: seq<Member<T>>, cs: bool) {
    forall j :: 0 <= j < |s| ==> CompareStrings(k, s[j].key, cs) <= 0
  }

  lemma HeadAtMostAll<T>(s: seq<Member<T>>, cs: bool)
    requires Sorted(s, cs) && s != []
    ensures AtMostAll(s[0].key, s, cs)
  {
    CompareZeroIsSameKey(s[0].key, s[0].key, cs);
  }

  lemma AtMostAllBelow<T>(k: Text, l: Text, s: seq<Member<T>>, cs: bool)
    requires CompareStrings(k, l, cs) <= 0 && AtMostAll(l, s, cs)
    ensures AtMostAll(k, s, cs)
  {
    forall j | 0 <= j < |s| ensures CompareStrings(k, s[j].key, cs) <= 0 {
      CompareTransitive(k, l, s[j].key, cs);
    }
  }

  lemma {:induction false} MergeAtLeast<T>(k: Text, a: seq<Member<T>>, b: seq<Member<T>>, cs: bool)
    requires AtMostAll(k, a, cs) && AtMostAll(k, b, cs)
    ensures AtMostAll(k, Merge(a, b, cs), cs)
    decreases |a| + |b|
  {
    if a != [] && b != [] {
      if Less(a[0].key, b[0].key, cs) {
        MergeAtLeast(k, a[1..], b, cs);
      } else {
        MergeAtLeast(k, a, b[1..], cs);
      }
    }
  }

  lemma {:induction false} MergeSorts<T>(a: seq<Member<T>>, b: seq<Member<T>>, cs: bool)
    requires Sorted(a, cs) && Sorted(b, cs)
    ensures Sorted(Merge(a, b, cs), cs)
    decreases |a| + |b|
  {
    if a != [] && b != [] {
      HeadAtMostAll(a, cs);
      HeadAtMostAll(b, cs);
      CompareAntisymmetric(a[0].key, b[0].key, cs);
      if Less(a[0].key, b[0].key, cs) {
        MergeSorts(a[1..], b, cs);
        AtMostAllBelow(a[0].key, b[0].key, b, cs);
        MergeAtLeast(a[0].key, a[1..], b, cs);
      } else {
        MergeSorts(a, b[1..], cs);
        AtMostAllBelow(b[0].key, a[0].key, a, cs);
        MergeAtLeast(b[0].key, a, b[1..], cs);
      }
    }
  }

  /** The result of the sort is in compare_strings order. */
  lemma {:induction false} SortSorts<T>(s: seq<Member<T>>, cs: bool)
    ensures Sorted(SortList(s, cs), cs)
    decreases |s|
  {
    if |s| >= 2 {
      if NeighboursAscend(s, cs) {
        forall i, j | 0 <= i < j < |s| ensures CompareStrings(s[i].key, s[j].key, cs) <= 0 {
          NeighboursSuffice(s, cs, i, j);
        }
      } else {
        var m := Middle(|s|);
        SortSorts(s[..m], cs);
        SortSorts(s[m..], cs);
        MergeSorts(SortList(s[..m], cs), SortList(s[m..], cs), cs);
      }
    }
  }

  // ---------------------------------------------------------------- distinct keys

  lemma TwoOccurrences<T>(s: seq<T>, x: T) returns (i: nat, j: nat)
    requires multiset(s)[x] >= 2
    ensures i < j < |s| && s[i] == x && s[j] == x
  {
    assert x in multiset(s);
    var a :| 0 <= a < |s| && s[a] == x;
    assert s == s[..a] + [x] + s[a + 1..];
    assert multiset(s) == multiset(s[..a]) + multiset{x} + multiset(s[a + 1..]);
    if x in multiset(s[..a]) {
      var b :| 0 <= b < a && s[..a][b] == x;
      i, j := b, a;
    } else {
      assert x in multiset(s[a + 1..]);
      var b :| 0 <= b < |s| - a - 1 && s[a + 1..][b] == x;
      i, j := a, a + 1 + b;
    }
  }

  lemma PermutationKeepsUnique<T>(s: seq<Member<T>>, t: seq<Member<T>>, cs: bool)
    requires multiset(s) == multiset(t) && UniqueKeys(s, cs)
    ensures UniqueKeys(t, cs)
  {
    forall i, j | 0 <= i < j < |t| ensures !SameKey(t[i].key, t[j].key, cs) {
      assert t[i] in multiset(t) && t[j] in multiset(t);
      assert t[i] in multiset(s) && t[j] in multiset(s);
      if t[i] == t[j] {
        assert t == t[..j] + [t[j]] + t[j + 1..];
        assert t[..j][i] == t[i];
        assert multiset(t) == multiset(t[..j]) + multiset{t[j]} + multiset(t[j + 1..]);
        var a, b := TwoOccurrences(s, t[i]);
        assert !SameKey(s[a].key, s[b].key, cs);
      } else {
        var a :| 0 <= a < |s| && s[a] == t[i];
        var b :| 0 <= b < |s| && s[b] == t[j];
        if a < b {
          assert !SameKey(s[a].key, s[b].key, cs);
        } else {
          assert !SameKey(s[b].key, s[a].key, cs);
        }
      }
    }
  }

  /** With distinct keys the sort yields the strictly ascending arrangement of the same members. */
  lemma SortAscends<T>(s: seq<Member<T>>, cs: bool)
    requires UniqueKeys(s, cs)
    ensures Ascending(SortList(s, cs), cs) && UniqueKeys(SortList(s, cs), cs)
  {
    var r := SortList(s, cs);
    SortPermutes(s, cs);
    SortSorts(s, cs);
    PermutationKeepsUnique(s, r, cs);
    forall i, j | 0 <= i < j < |r| ensures Less(r[i].key, r[j].key, cs) {
      CompareZeroIsSameKey(r[i].key, r[j].key, cs);
    }
  }

  lemma AscendingLeast<T>(s: seq<Member<T>>, t: seq<Member<T>>, cs: bool)
    requires Ascending(s, cs) && Ascending(t, cs) && multiset(s) == multiset(t) && s != [] && t != []
    ensures s[0] == t[0]
  {
    assert s[0] in multiset(t) && t[0] in multiset(s);
    var i :| 0 <= i < |t| && t[i] == s[0];
    var j :| 0 <= j < |s| && s[j] == t[0];
    CompareAntisymmetric(s[0].key, t[0].key, cs);
  }

  /** There is only one strictly ascending arrangement of a collection of members. */
  lemma {:induction false} AscendingIsUnique<T>(s: seq<Member<T>>, t: seq<Member<T>>, cs: bool)
    requires Ascending(s, cs) && Ascending(t, cs) && multiset(s) == multiset(t)
    ensures s == t
  {
    assert |s| == |multiset(s)| == |multiset(t)| == |t|;
    if s != [] {
      AscendingLeast(s, t, cs);
      assert s == [s[0]] + s[1..] && t == [t[0]] + t[1..];
      assert multiset(s) == multiset{s[0]} + multiset(s[1..]);
      assert multiset(t) == multiset{t[0]} + multiset(t[1..]);
      assert multiset(s[1..]) == multiset(s) - multiset{s[0]} == multiset(t[1..]);
      AscendingIsUnique(s[1..], t[1..], cs);
    }
  }

  lemma SortKeepsUniqueExact<T>(s: seq<Member<T>>, cs: bool)
    requires UniqueKeys(s, true)
    ensures UniqueKeys(SortList(s, cs), true)
  {
    SortPermutes(s, cs);
    PermutationKeepsUnique(s, SortList(s, cs), true);
  }

  /** Sorting does not change the value of an object. */
  lemma SortKeepsValue(s: Members, cs: bool)
    requires UniqueKeys(s, true)
    ensures AbsMembers(SortList(s, cs)) == AbsMembers(s)
  {
    SortPermutes(s, cs);
    SortKeepsUniqueExact(s, cs);
    AbsMembersOfPermutation(SortList(s, cs), s);
  }

  lemma SortKeepsHeight(s: Members, cs: bool)
    ensures MembersHeight(SortList(s, cs)) <= MembersHeight(s)
  {
    SortPermutes(s, cs);
    var r := SortList(s, cs);
    forall i | 0 <= i < |r| ensures Height(r[i].value) <= MembersHeight(s) {
      assert r[i] in multiset(s);
    }
    MembersHeightBound(r, MembersHeight(s));
  }

  // ---------------------------------------------------------------- compare_json

  function CompareJson(a: Json, b: Json, cs: bool): bool
    decreases Height(a), 1
  {
    match (a, b)
    case (Number(x), Number(y)) => SameNumber(x, y)
    case (String(x), String(y)) => x == y
    case (Array(x), Array(y)) => CompareItems(x, y, cs, Height(a))
    case (Object(x), Object(y)) =>
      SortKeepsHeight(x, cs);
      CompareMembers(SortList(x, cs), SortList(y, cs), cs, Height(a))
    case (False, False) => true
    case (True, True) => true
    case (Null, Null) => true
    case (Invalid, Invalid) => true
    case _ => false
  }

  function CompareItems(a: seq<Json>, b: seq<Json>, cs: bool, h: nat): bool
    requires a == [] || ItemsHeight(a) < h
    decreases h, 0, |a|
  {
    if a == [] || b == [] then a == [] && b == []
    else CompareJson(a[0], b[0], cs) && CompareItems(a[1..], b[1..], cs, h)
  }

  function CompareMembers(a: Members, b: Members, cs: bool, h: nat): bool
    requires a == [] || MembersHeight(a) < h
    decreases h, 0, |a|
  {
    if a == [] || b == [] then a == [] && b == []
    else
      && CompareStrings(a[0].key, b[0].key, cs) == 0
      && CompareJson(a[0].value, b[0].value, cs)
      && CompareMembers(a[1..], b[1..], cs, h)
  }

  // ---------------------------------------------------------------- what the comparison leaves behind

  /**
    The first tree after compare_json: the objects it has reached are sorted in place,
    up to the first difference.
   */
  function Compared(a: Json, b: Json, cs: bool): Json
    decreases Height(a), 1
  {
    match (a, b)
    case (Array(x), Array(y)) => Array(ComparedItems(x, y, cs, Height(a)))
    case (Object(x), Object(y)) =>
      SortKeepsHeight(x, cs);
      Object(ComparedMembers(SortList(x, cs), SortList(y, cs), cs, Height(a)))
    case _ => a
  }

  function ComparedItems(a: seq<Json>, b: seq<Json>, cs: bool, h: nat): (r: seq<Json>)
    requires a == [] || ItemsHeight(a) < h
    ensures |r| == |a|
    decreases h, 0, |a|
  {
    if a == [] || b == [] then a
    else
      [Compared(a[0], b[0], cs)] + if CompareJson(a[0], b[0], cs) then ComparedItems(a[1..], b[1..], cs, h) else a[1..]
  }

  function ComparedMembers(a: Members, b: Members, cs: bool, h: nat): (r: Members)
    requires a == [] || MembersHeight(a) < h
    ensures |r| == |a| && forall i :: 0 <= i < |a| ==> r[i].key == a[i].key
    decreases h, 0, |a|
  {
    if a == [] || b == [] || CompareStrings(a[0].key, b[0].key, cs) != 0 then a
    else
      [Member(a[0].key, Compared(a[0].value, b[0].value, cs))]
      + if CompareJson(a[0].value, b[0].value, cs) then ComparedMembers(a[1..], b[1..], cs, h) else a[1..]
  }

  /** Comparing changes nothing but the order of members. */
  lemma {:induction false} ComparedKeepsValue(a: Json, b: Json, cs: bool)
    requires KeysUnique(a, true)
    ensures KeysUnique(Compared(a, b, cs), true) && Abs(Compared(a, b, cs)) == Abs(a)
    decreases Height(a), 1
  {
    match (a, b)
    case (Array(x), Array(y)) => ComparedItemsKeepValue(x, y, cs, Height(a));
    case (Object(x), Object(y)) =>
      var s := SortList(x, cs);
      SortKeepsHeight(x, cs);
      SortKeepsUniqueExact(x, cs);
      SortKeepsUniqueValues(x, cs);
      SortKeepsValue(x, cs);
      ComparedMembersKeepValue(s, SortList(y, cs), cs, Height(a));
    case _ =>
  }

  lemma SortKeepsUniqueValues(s: Members, cs: bool)
    requires MembersUnique(s, true)
    ensures MembersUnique(SortList(s, cs), true)
  {
    SortPermutes(s, cs);
    var r := SortList(s, cs);
    forall i | 0 <= i < |r| ensures KeysUnique(r[i].value, true) {
      assert r[i] in multiset(s);
      var j :| 0 <= j < |s| && s[j] == r[i];
    }
  }

  lemma {:induction false} ComparedItemsKeepValue(a: seq<Json>, b: seq<Json>, cs: bool, h: nat)
    requires a == [] || ItemsHeight(a) < h
    requires forall i :: 0 <= i < |a| ==> KeysUnique(a[i], true)
    ensures var r := ComparedItems(a, b, cs, h);
            AbsItems(r) == AbsItems(a) && forall i :: 0 <= i < |r| ==> KeysUnique(r[i], true)
    decreases h, 0, |a|
  {
    if a != [] && b != [] {
      ComparedKeepsValue(a[0], b[0], cs);
      ComparedItemsKeepValue(a[1..], b[1..], cs, h);
      var r := ComparedItems(a, b, cs, h);
      assert AbsItems(a) == [Abs(a[0])] + AbsItems(a[1..]);
      assert AbsItems(r) == [Abs(r[0])] + AbsItems(r[1..]);
    }
  }

  lemma {:induction false} ComparedMembersKeepValue(a: Members, b: Members, cs: bool, h: nat)
    requires a == [] || MembersHeight(a) < h
    requires MembersUnique(a, true)
    ensures var r := ComparedMembers(a, b, cs, h);
            AbsMembers(r) == AbsMembers(a) && MembersUnique(r, true)
    decreases h, 0, |a|
  {
    if a != [] && b != [] {
      ComparedKeepsValue(a[0].value, b[0].value, cs);
      ComparedMembersKeepValue(a[1..], b[1..], cs, h);
    }
  }

  // ---------------------------------------------------------------- what the comparison decides

  predicate MembersUnique(s: Members, cs: bool) {
    forall i :: 0 <= i < |s| ==> KeysUnique(s[i].value, cs)
  }

  predicate MembersInt(s: Members) {
    forall i :: 0 <= i < |s| ==> IntNumbers(s[i].value)
  }

  lemma SortKeepsMembers(s: Members, cs: bool)
    requires MembersUnique(s, true) && MembersInt(s)
    ensures MembersUnique(SortList(s, cs), true) && MembersInt(SortList(s, cs))
  {
    SortPermutes(s, cs);
    var r := SortList(s, cs);
    forall i | 0 <= i < |r| ensures KeysUnique(r[i].value, true) && IntNumbers(r[i].value) {
      assert r[i] in multiset(s);
      var j :| 0 <= j < |s| && s[j] == r[i];
    }
  }

  /** compare_json answers true exactly when the two trees are equal up to member order. */
  lemma {:induction false} CompareJsonDecides(a: Json, b: Json)
    requires KeysUnique(a, true) && KeysUnique(b, true) && IntNumbers(a) && IntNumbers(b)
    ensures CompareJson(a, b, true) <==> Abs(a) == Abs(b)
    decreases Height(a), 1
  {
    match (a, b)
    case (Number(x), Number(y)) => SameNumberIsEquality(x, y);
    case (Array(x), Array(y)) => CompareItemsDecides(x, y, Height(a));
    case (Object(x), Object(y)) =>
      SortKeepsHeight(x, true);
      SortAscends(x, true);
      SortAscends(y, true);
      SortKeepsMembers(x, true);
      SortKeepsMembers(y, true);
      SortKeepsValue(x, true);
      SortKeepsValue(y, true);
      CompareMembersDecides(SortList(x, true), SortList(y, true), Height(a));
    case _ =>
  }

  lemma {:induction false} CompareItemsDecides(a: seq<Json>, b: seq<Json>, h: nat)
    requires a == [] || ItemsHeight(a) < h
    requires forall i :: 0 <= i < |a| ==> KeysUnique(a[i], true) && IntNumbers(a[i])
    requires forall i :: 0 <= i < |b| ==> KeysUnique(b[i], true) && IntNumbers(b[i])
    ensures CompareItems(a, b, true, h) <==> AbsItems(a) == AbsItems(b)
    decreases h, 0, |a|
  {
    if a == [] || b == [] {
      assert |AbsItems(a)| == |a| && |AbsItems(b)| == |b|;
    } else {
      CompareJsonDecides(a[0], b[0]);
      CompareItemsDecides(a[1..], b[1..], h);
      assert AbsItems(a) == [Abs(a[0])] + AbsItems(a[1..]);
      assert AbsItems(b) == [Abs(b[0])] + AbsItems(b[1..]);
      assert AbsItems(a)[1..] == AbsItems(a[1..]) && AbsItems(b)[1..] == AbsItems(b[1..]);
    }
  }

  lemma TailKeyAbove(s: Members, k: Text)
    requires Ascending(s, true) && s != [] && k in AbsMembers(s[1..])
    ensures k != s[0].key && Less(s[0].key, k, true)
  {
    AbsMembersKeys(s[1..]);
    var i :| 0 <= i < |s| - 1 && s[1..][i].key == k;
    assert s[i + 1].key == k && Less(s[0].key, s[i + 1].key, true);
    CompareZeroIsSameKey(s[0].key, k, true);
  }

  lemma AscendingTailValue(s: Members)
    requires Ascending(s, true) && s != []
    ensures AbsMembers(s[1..]) == AbsMembers(s) - {s[0].key}
    ensures s[0].key !in AbsMembers(s[1..])
  {
    if s[0].key in AbsMembers(s[1..]) {
      TailKeyAbove(s, s[0].key);
    }
    UpdateThenRemove(AbsMembers(s[1..]), s[0].key, Abs(s[0].value));
  }

  lemma HeadKeyLeast(s: Members, k: Text)
    requires Ascending(s, true) && s != [] && k in AbsMembers(s)
    ensures k == s[0].key || Less(s[0].key, k, true)
  {
    if k != s[0].key {
      TailKeyAbove(s, k);
    }
  }

  lemma {:induction false} CompareMembersDecides(a: Members, b: Members, h: nat)
    requires a == [] || MembersHeight(a) < h
    requires Ascending(a, true) && Ascending(b, true)
    requires MembersUnique(a, true) && MembersInt(a) && MembersUnique(b, true) && MembersInt(b)
    ensures CompareMembers(a, b, true, h) <==> AbsMembers(a) == AbsMembers(b)
    decreases h, 0, |a|
  {
    AbsMembersKeys(a);
    AbsMembersKeys(b);
    if a == [] || b == [] {
      if a != [] { assert a[0].key in AbsMembers(a); }
      if b != [] { assert b[0].key in AbsMembers(b); }
    } else {
      CompareZeroIsSameKey(a[0].key, b[0].key, true);
      CompareJsonDecides(a[0].value, b[0].value);
      CompareMembersDecides(a[1..], b[1..], h);
      AscendingTailValue(a);
      AscendingTailValue(b);
      if AbsMembers(a) == AbsMembers(b) {
        assert a[0].key in AbsMembers(b) && b[0].key in AbsMembers(a);
        HeadKeyLeast(a, b[0].key);
        HeadKeyLeast(b, a[0].key);
        CompareAntisymmetric(a[0].key, b[0].key, true);
        assert a[0].key == b[0].key;
      }
    }
  }

  // ---------------------------------------------------------------- lower-case keys

  predicate KeysLower<T>(s: seq<Member<T>>) {
    forall i :: 0 <= i < |s| ==> IsLower(s[i].key)
  }

  /** Every key of the tree is its own lower-case form. */
  predicate TreeLower(v: Json) {
    match v
    case Array(items) => forall i :: 0 <= i < |items| ==> TreeLower(items[i])
    case Object(ms) => KeysLower(ms) && forall i :: 0 <= i < |ms| ==> TreeLower(ms[i].value)
    case _ => true
  }
}
