/**
  What compare_json decides when it ignores the case of keys: equality of the two trees
  with their keys in lower case.
 */
module JsonFolded {
  import opened Basics
  import opened JsonTree
  import opened JsonSort

  /** The tree with every key in lower case. */
  function LowerKeys(v: Json): Json {
    match v
    case Array(items) => Array(seq(|items|, i requires 0 <= i < |items| => LowerKeys(items[i])))
    case Object(ms) =>
      Object(seq(|ms|, i requires 0 <= i < |ms| => Member(Lower(ms[i].key), LowerKeys(ms[i].value))))
    case _ => v
  }

  function LowerItems(s: seq<Json>): (r: seq<Json>)
    ensures |r| == |s|
    ensures forall i :: 0 <= i < |s| ==> r[i] == LowerKeys(s[i])
  {
    seq(|s|, i requires 0 <= i < |s| => LowerKeys(s[i]))
  }

  function LowerMembers(s: Members): (r: Members)
    ensures |r| == |s|
    ensures forall i :: 0 <= i < |s| ==> r[i] == Member(Lower(s[i].key), LowerKeys(s[i].value))
  {
    seq(|s|, i requires 0 <= i < |s| => Member(Lower(s[i].key), LowerKeys(s[i].value)))
  }

  lemma LowerShape(v: Json)
    ensures match v
            case Array(items) => LowerKeys(v) == Array(LowerItems(items))
            case Object(ms) => LowerKeys(v) == Object(LowerMembers(ms))
            case _ => LowerKeys(v) == v
  {
    match v
    case Array(items) => assert LowerKeys(v).items == LowerItems(items);
    case Object(ms) => assert LowerKeys(v).members == LowerMembers(ms);
    case _ =>
  }

  lemma {:induction false} CompareLower(a: Text, b: Text)
    ensures CompareStrings(Lower(a), Lower(b), true) == CompareStrings(a, b, false)
  {
    assert |Lower(a)| == |a| && |Lower(b)| == |b|;
    if a != [] && b != [] {
      CompareLower(a[1..], b[1..]);
      assert Lower(a)[1..] == Lower(a[1..]) && Lower(b)[1..] == Lower(b[1..]);
    }
  }

  // ---------------------------------------------------------------- sorting

  lemma {:induction false} MergeLower(a: Members, b: Members)
    ensures JsonSort.Merge(LowerMembers(a), LowerMembers(b), true) == LowerMembers(JsonSort.Merge(a, b, false))
    decreases |a| + |b|
  {
    hide LowerKeys, CompareStrings, Lower;
    if a != [] && b != [] {
      CompareLower(a[0].key, b[0].key);
      assert LowerMembers(a)[1..] == LowerMembers(a[1..]) && LowerMembers(b)[1..] == LowerMembers(b[1..]);
      MergeLower(a[1..], b);
      MergeLower(a, b[1..]);
    }
  }

  /** Sorting without regard to case is sorting the lower-case keys. */
  lemma {:induction false} SortLower(s: Members)
    ensures SortList(LowerMembers(s), true) == LowerMembers(SortList(s, false))
    decreases |s|
  {
    hide LowerKeys, CompareStrings, Lower;
    var t := LowerMembers(s);
    forall i | 0 <= i < |s| - 1 ensures Less(t[i].key, t[i + 1].key, true) == Less(s[i].key, s[i + 1].key, false) {
      CompareLower(s[i].key, s[i + 1].key);
    }
    if |s| >= 2 && !NeighboursAscend(s, false) {
      var m := Middle(|s|);
      assert t[..m] == LowerMembers(s[..m]) && t[m..] == LowerMembers(s[m..]);
      SortLower(s[..m]);
      SortLower(s[m..]);
      MergeLower(SortList(s[..m], false), SortList(s[m..], false));
    }
  }

  // ---------------------------------------------------------------- comparing

  lemma {:induction false} LowerHeight(v: Json)
    ensures Height(LowerKeys(v)) == Height(v)
  {
    LowerShape(v);
    match v
    case Array(items) =>
      forall i | 0 <= i < |items| ensures Height(LowerKeys(items[i])) == Height(items[i]) {
        LowerHeight(items[i]);
      }
      LowerItemsHeight(items);
    case Object(ms) =>
      forall i | 0 <= i < |ms| ensures Height(LowerKeys(ms[i].value)) == Height(ms[i].value) {
        LowerHeight(ms[i].value);
      }
      LowerMembersHeight(ms);
    case _ =>
  }

  lemma {:induction false} LowerItemsHeight(s: seq<Json>)
    requires forall i :: 0 <= i < |s| ==> Height(LowerKeys(s[i])) == Height(s[i])
    ensures ItemsHeight(LowerItems(s)) == ItemsHeight(s)
  {
    if s != [] {
      assert LowerItems(s)[1..] == LowerItems(s[1..]);
      LowerItemsHeight(s[1..]);
    }
  }

  lemma {:induction false} LowerMembersHeight(s: Members)
    requires forall i :: 0 <= i < |s| ==> Height(LowerKeys(s[i].value)) == Height(s[i].value)
    ensures MembersHeight(LowerMembers(s)) == MembersHeight(s)
  {
    if s != [] {
      assert LowerMembers(s)[1..] == LowerMembers(s[1..]);
      LowerMembersHeight(s[1..]);
    }
  }

  /** Ignoring case, the comparison is that of the trees with lower-case keys. */
  lemma {:induction false} CompareFolds(a: Json, b: Json)
    ensures CompareJson(a, b, false) == CompareJson(LowerKeys(a), LowerKeys(b), true)
    decreases Height(a), 1
  {
    LowerShape(a);
    LowerShape(b);
    LowerHeight(a);
    hide LowerKeys;
    match (a, b)
    case (Array(x), Array(y)) => CompareItemsFolds(x, y, Height(a));
    case (Object(x), Object(y)) =>
      SortKeepsHeight(x, false);
      SortKeepsHeight(LowerMembers(x), true);
      SortLower(x);
      SortLower(y);
      CompareMembersFolds(SortList(x, false), SortList(y, false), Height(a));
    case _ =>
  }

  lemma {:induction false} CompareItemsFolds(a: seq<Json>, b: seq<Json>, h: nat)
    requires a == [] || (ItemsHeight(a) < h && ItemsHeight(LowerItems(a)) < h)
    ensures CompareItems(a, b, false, h) == CompareItems(LowerItems(a), LowerItems(b), true, h)
    decreases h, 0, |a|
  {
    hide LowerKeys;
    if a != [] && b != [] {
      assert LowerItems(a)[1..] == LowerItems(a[1..]) && LowerItems(b)[1..] == LowerItems(b[1..]);
      CompareFolds(a[0], b[0]);
      CompareItemsFolds(a[1..], b[1..], h);
    }
  }

  lemma {:induction false} CompareMembersFolds(a: Members, b: Members, h: nat)
    requires a == [] || (MembersHeight(a) < h && MembersHeight(LowerMembers(a)) < h)
    ensures CompareMembers(a, b, false, h) == CompareMembers(LowerMembers(a), LowerMembers(b), true, h)
    decreases h, 0, |a|
  {
    hide LowerKeys;
    if a != [] && b != [] {
      assert LowerMembers(a)[1..] == LowerMembers(a[1..]) && LowerMembers(b)[1..] == LowerMembers(b[1..]);
      CompareLower(a[0].key, b[0].key);
      CompareFolds(a[0].value, b[0].value);
      CompareMembersFolds(a[1..], b[1..], h);
    }
  }

  lemma {:induction false} LowerKeepsTree(v: Json)
    requires KeysUnique(v, false) && IntNumbers(v)
    ensures KeysUnique(LowerKeys(v), true) && IntNumbers(LowerKeys(v))
  {
    LowerShape(v);
    match v
    case Array(items) =>
      forall i | 0 <= i < |items| ensures KeysUnique(LowerKeys(items[i]), true) && IntNumbers(LowerKeys(items[i])) {
        LowerKeepsTree(items[i]);
      }
    case Object(ms) =>
      forall i | 0 <= i < |ms|
        ensures KeysUnique(LowerKeys(ms[i].value), true) && IntNumbers(LowerKeys(ms[i].value))
      {
        LowerKeepsTree(ms[i].value);
      }
    case _ =>
  }

  /** Ignoring case, compare_json answers true exactly when the trees are equal up to member order and case of keys. */
  lemma CompareIgnoringCaseDecides(a: Json, b: Json)
    requires KeysUnique(a, false) && KeysUnique(b, false) && IntNumbers(a) && IntNumbers(b)
    ensures CompareJson(a, b, false) <==> Abs(LowerKeys(a)) == Abs(LowerKeys(b))
  {
    CompareFolds(a, b);
    LowerKeepsTree(a);
    LowerKeepsTree(b);
    CompareJsonDecides(LowerKeys(a), LowerKeys(b));
  }
}
