/**
  Generating a merge patch, and the round trip through it.
 */
module JsonMergeGenerate {
  import opened Basics
  import opened JsonTree
  import opened JsonObjects
  import opened JsonSort
  import opened JsonMerge

  // ---------------------------------------------------------------- on values

  /** The merge patch from one value to another: only what differs, nulls for what is gone. */
  function Difference(from: Value, goal: Value): Value
    decreases goal
  {
    if from.VObject? && goal.VObject? then VObject(DifferenceMembers(from.members, goal)) else goal
  }

  function DifferenceMembers(f: map<Text, Value>, goal: Value): map<Text, Value>
    requires goal.VObject?
    decreases goal, 0
  {
    var t := goal.members;
    map k | k in f.Keys + t.Keys && Get(f, k) != Get(t, k) ::
      if k !in t then VNull else if k !in f then t[k] else Difference(f[k], t[k])
  }

  /**
    Where the standard can express the target: a null member of `goal` is kept only if
    `from` has the same null in the same place.
   */
  predicate Restorable(from: Option<Value>, goal: Value)
    decreases goal
  {
    goal.VObject? ==>
      var f, t := MembersOf(from), goal.members;
      forall k :: k in t ==> if t[k] == VNull then Get(f, k) == Some(VNull) else Restorable(Get(f, k), t[k])
  }

  lemma {:induction false} RestorableSelf(v: Value)
    ensures Restorable(Some(v), v)
    decreases v
  {
    if v.VObject? {
      forall k | k in v.members && v.members[k] != VNull ensures Restorable(Get(v.members, k), v.members[k]) {
        RestorableSelf(v.members[k]);
      }
    }
  }

  lemma {:induction false} RestoredFromNothing(from: Option<Value>, goal: Value)
    requires from.Some? ==> !from.value.VObject?
    ensures Rfc(from, goal) == goal <==> Restorable(from, goal)
    decreases goal
  {
    if goal.VObject? {
      var t := goal.members;
      var r := RfcMembers(map[], goal);
      forall k | k in t ensures (k in r && r[k] == t[k]) <==> (t[k] != VNull && Restorable(None, t[k])) {
        if t[k] != VNull {
          RestoredFromNothing(None, t[k]);
        }
      }
      if forall k :: k in t ==> t[k] != VNull && Restorable(None, t[k]) {
        assert r == t;
      } else {
        var k :| k in t && !(t[k] != VNull && Restorable(None, t[k]));
        assert !(k in r && r[k] == t[k]);
      }
    }
  }

  /** One member of the restored object. */
  lemma {:induction false} RestoredMember(f: map<Text, Value>, goal: Value, k: Text)
    requires goal.VObject? && k in goal.members
    ensures var r := RfcMembers(f, VObject(DifferenceMembers(f, goal)));
            (k in r && r[k] == goal.members[k]) <==>
            (if goal.members[k] == VNull then Get(f, k) == Some(VNull) else Restorable(Get(f, k), goal.members[k]))
    decreases goal, 0
  {
    var t := goal.members;
    if Get(f, k) == Get(t, k) {
      RestorableSelf(t[k]);
    } else if t[k] != VNull {
      if k in f {
        Restored(f[k], t[k]);
      } else {
        RestoredFromNothing(None, t[k]);
      }
    }
  }

  /** Applying the difference restores the target exactly when its nulls are expressible. */
  lemma {:induction false} Restored(from: Value, goal: Value)
    ensures Rfc(Some(from), Difference(from, goal)) == goal <==> Restorable(Some(from), goal)
    decreases goal, 1
  {
    if from.VObject? && goal.VObject? {
      var f, t := from.members, goal.members;
      var r := RfcMembers(f, VObject(DifferenceMembers(f, goal)));
      forall k | k in t
        ensures (k in r && r[k] == t[k]) <==>
                (if t[k] == VNull then Get(f, k) == Some(VNull) else Restorable(Get(f, k), t[k]))
      {
        RestoredMember(f, goal, k);
      }
      assert r.Keys <= t.Keys;
      if Restorable(Some(from), goal) {
        assert r == t;
      } else {
        var k :| k in t && !(if t[k] == VNull then Get(f, k) == Some(VNull) else Restorable(Get(f, k), t[k]));
        assert !(k in r && r[k] == t[k]);
      }
    } else if goal.VObject? {
      RestoredFromNothing(Some(from), goal);
    }
  }

  // ---------------------------------------------------------------- generate_merge_patch

  /** generate_merge_patch; None is the NULL that stands for "no patch generated". */
  function GenerateMergePatch(from: Option<Json>, goal: Option<Json>, cs: bool): Option<Json>
    decreases if from.Some? then Height(from.value) else 0, 1
  {
    if goal.None? then Some(Json.Null)
    else if from.None? || !from.value.Object? || !goal.value.Object? then Duplicate(goal.value)
    else
      var x, y := from.value.members, goal.value.members;
      SortKeepsHeight(x, cs);
      var ms := GenerateMembers(SortList(x, cs), SortList(y, cs), cs, Height(from.value));
      if ms == [] then None else Some(Object(ms))
  }

  /** AddItemToObject with a NULL item adds nothing. */
  function AddItem(key: Text, item: Option<Json>): Members {
    if item.None? then [] else [Member(key, item.value)]
  }

  /** The walk over both sorted lists; the recursion is always case-insensitive. */
  function GenerateMembers(from: Members, goal: Members, cs: bool, h: nat): Members
    requires from == [] || MembersHeight(from) < h
    decreases h, 0, |from| + |goal|
  {
    if from == [] && goal == [] then []
    else
      var diff := if from == [] then 1 else if goal == [] then -1 else CompareStrings(from[0].key, goal[0].key, true);
      if diff < 0 then
        [Member(from[0].key, Json.Null)] + GenerateMembers(from[1..], goal, cs, h)
      else if diff > 0 then
        AddItem(goal[0].key, Duplicate(goal[0].value)) + GenerateMembers(from, goal[1..], cs, h)
      else if CompareJson(from[0].value, goal[0].value, cs) then
        GenerateMembers(from[1..], goal[1..], cs, h)
      else
        AddItem(goal[0].key, GenerateMergePatch(Some(from[0].value), Some(goal[0].value), false))
        + GenerateMembers(from[1..], goal[1..], cs, h)
  }

  /**
    Both orders of the keys of two objects agree: the list sort may go by letters of
    either case, the walk goes by strcmp. No two of these keys differ by case alone.
   */
  predicate OrdersAgree(x: Members, y: Members) {
    forall k, l :: k in KeySet(x) + KeySet(y) && l in KeySet(x) + KeySet(y) ==>
          (Less(k, l, false) <==> Less(k, l, true))
  }

  /** The orders agree wherever the generator compares two objects. */
  predicate Compatible(from: Json, goal: Json)
    decreases from
  {
    match (from, goal)
    case (Array(x), Array(y)) => forall i :: 0 <= i < |x| && i < |y| ==> Compatible(x[i], y[i])
    case (Object(x), Object(y)) => CompatibleMembers(x, y)
    case _ => true
  }

  predicate CompatibleMembers(x: Members, y: Members)
    decreases x, 1
  {
    OrdersAgree(x, y) && SharedCompatible(x, y)
  }

  /** The values of the keys that both objects have are compatible. */
  predicate SharedCompatible(x: Members, y: Members)
    decreases x, 0
  {
    forall i, j :: 0 <= i < |x| && 0 <= j < |y| && x[i].key == y[j].key ==> Compatible(x[i].value, y[j].value)
  }

  /**
    The orders agree wherever the sort and the walk may differ. With `cs` the root is
    sorted as it is walked; below it the generator ignores case in any event.
   */
  predicate WalksSorted(from: Json, goal: Json, cs: bool) {
    from.Object? && goal.Object? ==>
      && (cs || OrdersAgree(from.members, goal.members))
      && SharedCompatible(from.members, goal.members)
  }

  /** Distinct keys: in the root under the case rule `c`, below it modulo case. */
  predicate Distinct(v: Json, c: bool) {
    KeysUnique(v, c) && (v.Object? ==> MembersUnique(v.members, false))
  }

  /** Trees the round trip is about: distinct keys, and exact C ints. */
  predicate Plain(v: Json, c: bool) {
    Distinct(v, c) && IntNumbers(v)
  }

  predicate PlainMembers(s: Members) {
    && Ascending(s, true)
    && forall i :: 0 <= i < |s| ==> Plain(s[i].value, false)
  }

  predicate Agreed<T>(s: seq<Member<T>>) {
    forall i, j :: 0 <= i < |s| && 0 <= j < |s| ==>
          (Less(s[i].key, s[j].key, false) <==> Less(s[i].key, s[j].key, true))
  }

  lemma {:induction false} MergeOnAgreed<T>(a: seq<Member<T>>, b: seq<Member<T>>, cs: bool)
    requires forall i, j :: 0 <= i < |a| && 0 <= j < |b| ==>
               (Less(a[i].key, b[j].key, false) <==> Less(a[i].key, b[j].key, true))
    ensures JsonSort.Merge(a, b, cs) == JsonSort.Merge(a, b, true)
    decreases |a| + |b|
  {
    hide Less;
    if !cs && a != [] && b != [] {
      MergeOnAgreed(a[1..], b, cs);
      MergeOnAgreed(a, b[1..], cs);
    }
  }

  /** Where the two orders agree, both case rules sort alike. */
  lemma {:induction false} SortOnAgreed<T>(s: seq<Member<T>>, cs: bool)
    requires Agreed(s)
    ensures SortList(s, cs) == SortList(s, true)
    decreases |s|
  {
    hide Less;
    if !cs && |s| >= 2 {
      assert NeighboursAscend(s, cs) == NeighboursAscend(s, true);
      if !NeighboursAscend(s, cs) {
        var m := Middle(|s|);
        SortOnAgreed(s[..m], cs);
        SortOnAgreed(s[m..], cs);
        SortKeepsKeys(s[..m]);
        SortKeepsKeys(s[m..]);
        MergeOnAgreed(SortList(s[..m], true), SortList(s[m..], true), cs);
      }
    }
  }

  lemma SortKeepsKeys<T>(s: seq<Member<T>>)
    ensures forall i :: 0 <= i < |s| ==> SortList(s, true)[i] in s
  {
    SortPermutes(s, true);
    forall i | 0 <= i < |s| ensures SortList(s, true)[i] in s {
      assert SortList(s, true)[i] in multiset(s);
    }
  }

  lemma AgreedMembers(x: Members, y: Members)
    requires OrdersAgree(x, y)
    ensures Agreed(x) && Agreed(y)
  {
    assert forall i :: 0 <= i < |x| ==> x[i].key in KeySet(x);
    assert forall i :: 0 <= i < |y| ==> y[i].key in KeySet(y);
  }

  /** Sorting two objects changes nothing about their compatibility. */
  lemma SortedCompatible(x: Members, y: Members)
    requires CompatibleMembers(x, y)
    ensures CompatibleMembers(SortList(x, true), SortList(y, true))
    ensures forall cs: bool :: SortList(x, cs) == SortList(x, true) && SortList(y, cs) == SortList(y, true)
  {
    hide Less, SortList;
    AgreedMembers(x, y);
    SortOnAgreed(x, false);
    SortOnAgreed(y, false);
    SortPermutes(x, true);
    SortPermutes(y, true);
    KeysOfPermutation(x, SortList(x, true));
    KeysOfPermutation(y, SortList(y, true));
    SortKeepsKeys(x);
    SortKeepsKeys(y);
  }

  lemma SortedShared(x: Members, y: Members)
    requires SharedCompatible(x, y)
    ensures SharedCompatible(SortList(x, true), SortList(y, true))
  {
    SortKeepsKeys(x);
    SortKeepsKeys(y);
  }

  lemma CompatibleTails(x: Members, y: Members, i: nat, j: nat)
    requires CompatibleMembers(x, y) && i <= |x| && j <= |y|
    ensures CompatibleMembers(x[i..], y[j..])
  {
    hide Less;
    assert KeySet(x[i..]) <= KeySet(x);
    assert KeySet(y[j..]) <= KeySet(y);
  }

  lemma SameIfNeitherLess(k: Text, l: Text, cs: bool)
    ensures CompareStrings(k, l, cs) == 0 <==> !Less(k, l, cs) && !Less(l, k, cs)
  {
    CompareAntisymmetric(k, l, cs);
  }

  lemma AgreedKeys(x: Members, y: Members, k: Text, l: Text, cs: bool)
    requires OrdersAgree(x, y) && k in KeySet(x) + KeySet(y) && l in KeySet(x) + KeySet(y)
    ensures CompareStrings(k, l, cs) == 0 <==> k == l
  {
    SameIfNeitherLess(k, l, cs);
    SameIfNeitherLess(k, l, true);
    CompareZeroIsSameKey(k, l, true);
  }

  /** Compatible trees compare alike under both case rules. */
  lemma {:induction false} CompareJsonOnCompatible(a: Json, b: Json, cs: bool)
    requires Compatible(a, b)
    ensures CompareJson(a, b, cs) == CompareJson(a, b, true)
    decreases Height(a), 1
  {
    match (a, b)
    case (Array(x), Array(y)) => CompareItemsOnCompatible(x, y, cs, Height(a));
    case (Object(x), Object(y)) =>
      SortedCompatible(x, y);
      SortKeepsHeight(x, true);
      CompareMembersOnCompatible(SortList(x, true), SortList(y, true), cs, Height(a));
    case _ =>
  }

  lemma {:induction false} CompareItemsOnCompatible(a: seq<Json>, b: seq<Json>, cs: bool, h: nat)
    requires a == [] || ItemsHeight(a) < h
    requires forall i :: 0 <= i < |a| && i < |b| ==> Compatible(a[i], b[i])
    ensures CompareItems(a, b, cs, h) == CompareItems(a, b, true, h)
    decreases h, 0, |a|
  {
    if a != [] && b != [] {
      CompareJsonOnCompatible(a[0], b[0], cs);
      CompareItemsOnCompatible(a[1..], b[1..], cs, h);
    }
  }

  lemma {:induction false} CompareMembersOnCompatible(a: Members, b: Members, cs: bool, h: nat)
    requires a == [] || MembersHeight(a) < h
    requires CompatibleMembers(a, b)
    ensures CompareMembers(a, b, cs, h) == CompareMembers(a, b, true, h)
    decreases h, 0, |a|
  {
    if a != [] && b != [] {
      assert a[0].key in KeySet(a) && b[0].key in KeySet(b);
      AgreedKeys(a, b, a[0].key, b[0].key, cs);
      AgreedKeys(a, b, a[0].key, b[0].key, true);
      if a[0].key == b[0].key {
        CompareJsonOnCompatible(a[0].value, b[0].value, cs);
        CompatibleTails(a, b, 1, 1);
        CompareMembersOnCompatible(a[1..], b[1..], cs, h);
      }
    }
  }

  lemma SortedPlain(s: Members)
    requires Plain(Object(s), true)
    ensures PlainMembers(SortList(s, true)) && AbsMembers(SortList(s, true)) == AbsMembers(s)
    ensures MembersHeight(SortList(s, true)) <= MembersHeight(s)
  {
    SortAscends(s, true);
    SortKeepsValue(s, true);
    SortKeepsHeight(s, true);
    SortKeepsKeys(s);
    var r := SortList(s, true);
    forall i | 0 <= i < |r| ensures Plain(r[i].value, false) {
      var j :| 0 <= j < |s| && s[j] == r[i];
    }
  }

  lemma PlainFoldedIsPlain(v: Json)
    requires Plain(v, false)
    ensures Plain(v, true)
  {
    UniqueFoldedTree(v);
  }

  // ---------------------------------------------------------------- the walk computes the difference

  lemma {:induction false} LowFits(v: Json)
    requires Height(v) <= CIRCULAR_LIMIT
    ensures Fits(v)
  {
    match v
    case Object(ms) =>
      forall i | 0 <= i < |ms| ensures Fits(ms[i].value) {
        LowFits(ms[i].value);
      }
    case _ =>
  }

  lemma DifferenceEmpty(f: map<Text, Value>, t: map<Text, Value>)
    ensures DifferenceMembers(f, VObject(t)) == map[] <==> f == t
  {
    var d := DifferenceMembers(f, VObject(t));
    if d == map[] {
      forall k | k in f || k in t ensures k in f && k in t && f[k] == t[k] {
        assert k !in d;
      }
    }
  }

  lemma DifferenceEqual(f: map<Text, Value>, t: map<Text, Value>, k: Text)
    requires Get(f, k) == Get(t, k)
    ensures DifferenceMembers(f, VObject(t)) == DifferenceMembers(f - {k}, VObject(t - {k}))
  {
  }

  lemma DifferenceChanged(f: map<Text, Value>, t: map<Text, Value>, k: Text)
    requires k in f && k in t && f[k] != t[k]
    ensures DifferenceMembers(f, VObject(t)) ==
            DifferenceMembers(f - {k}, VObject(t - {k}))[k := Difference(f[k], t[k])]
  {
  }

  lemma DifferenceRemoved(f: map<Text, Value>, t: map<Text, Value>, k: Text)
    requires k in f && k !in t
    ensures DifferenceMembers(f, VObject(t)) == DifferenceMembers(f - {k}, VObject(t))[k := VNull]
  {
  }

  lemma DifferenceAdded(f: map<Text, Value>, t: map<Text, Value>, k: Text)
    requires k !in f && k in t
    ensures DifferenceMembers(f, VObject(t)) == DifferenceMembers(f, VObject(t - {k}))[k := t[k]]
  {
  }

  /** A member list a merge can apply: distinct keys, and nothing too high to duplicate. */
  predicate Patch(s: Members) {
    && UniqueKeys(s, true)
    && forall i :: 0 <= i < |s| ==> KeysUnique(s[i].value, false) && (s[i].value.Null? || Fits(s[i].value))
  }

  lemma PatchCons(m: Member<Json>, rest: Members)
    requires Patch(rest) && m.key !in AbsMembers(rest)
    requires KeysUnique(m.value, false) && (m.value.Null? || Fits(m.value))
    ensures Patch([m] + rest) && AbsMembers([m] + rest) == AbsMembers(rest)[m.key := Abs(m.value)]
  {
    AbsMembersKeys(rest);
    assert forall i :: 0 <= i < |rest| ==> rest[i].key in KeySet(rest);
    ValueOfHead(m, rest);
  }

  lemma PlainTail(s: Members)
    requires PlainMembers(s) && s != []
    ensures PlainMembers(s[1..]) && AbsMembers(s[1..]) == AbsMembers(s) - {s[0].key}
    ensures s[0].key in AbsMembers(s) && AbsMembers(s)[s[0].key] == Abs(s[0].value) && s[0].key !in AbsMembers(s[1..])
  {
    AscendingTailValue(s);
  }

  /** A key below the head of an ascending list is not in it. */
  lemma BelowHead(k: Text, s: Members)
    requires Ascending(s, true) && (s == [] || Less(k, s[0].key, true))
    ensures k !in AbsMembers(s)
  {
    if k in AbsMembers(s) {
      HeadKeyLeast(s, k);
      CompareAntisymmetric(k, s[0].key, true);
      CompareZeroIsSameKey(k, s[0].key, true);
      assert false;
    }
  }

  ghost predicate WalkIsDifference(from: Members, goal: Members, cs: bool, h: nat)
    requires from == [] || MembersHeight(from) < h
  {
    var g := GenerateMembers(from, goal, cs, h);
    Patch(g) && AbsMembers(g) == DifferenceMembers(AbsMembers(from), VObject(AbsMembers(goal)))
  }

  predicate LowMembers(s: Members) {
    forall i :: 0 <= i < |s| ==> Height(s[i].value) <= CIRCULAR_LIMIT
  }

  lemma {:induction false} WalkGenerates(from: Members, goal: Members, cs: bool, h: nat)
    requires (from == [] || MembersHeight(from) < h) && PlainMembers(from) && PlainMembers(goal) && LowMembers(goal)
    requires SharedCompatible(from, goal)
    ensures WalkIsDifference(from, goal, cs, h)
    decreases h, 0, |from| + |goal|
  {
    if from != [] { PlainTail(from); }
    if goal != [] { PlainTail(goal); }
    var f, t := AbsMembers(from), AbsMembers(goal);
    if from == [] && goal == [] {
      DifferenceEmpty(f, t);
    } else if from == [] || (goal != [] && CompareStrings(from[0].key, goal[0].key, true) > 0) {
      var m := goal[0];
      if from != [] { CompareAntisymmetric(from[0].key, m.key, true); }
      BelowHead(m.key, from);
      WalkGenerates(from, goal[1..], cs, h);
      DuplicateIsIdentity(m.value);
      LowFits(m.value);
      DifferenceAdded(f, t, m.key);
      PatchCons(m, GenerateMembers(from, goal[1..], cs, h));
    } else if goal == [] || CompareStrings(from[0].key, goal[0].key, true) < 0 {
      var k := from[0].key;
      BelowHead(k, goal);
      WalkGenerates(from[1..], goal, cs, h);
      DifferenceRemoved(f, t, k);
      PatchCons(Member(k, Json.Null), GenerateMembers(from[1..], goal, cs, h));
    } else {
      WalkSameKey(from, goal, cs, h);
    }
  }

  lemma CompatibleWalksSorted(a: Json, b: Json)
    requires Compatible(a, b)
    ensures WalksSorted(a, b, false)
  {
  }

  lemma {:induction false} WalkSameKey(from: Members, goal: Members, cs: bool, h: nat)
    requires from != [] && goal != [] && CompareStrings(from[0].key, goal[0].key, true) == 0
    requires MembersHeight(from) < h && PlainMembers(from) && PlainMembers(goal) && LowMembers(goal)
    requires SharedCompatible(from, goal)
    ensures WalkIsDifference(from, goal, cs, h)
    decreases h, 0, |from| + |goal| - 1
  {
    PlainTail(from);
    PlainTail(goal);
    CompareZeroIsSameKey(from[0].key, goal[0].key, true);
    var f, t, k := AbsMembers(from), AbsMembers(goal), from[0].key;
    var x, y := from[0].value, goal[0].value;
    WalkGenerates(from[1..], goal[1..], cs, h);
    CompareJsonOnCompatible(x, y, cs);
    UniqueFoldedTree(x);
    UniqueFoldedTree(y);
    CompareJsonDecides(x, y);
    if Abs(x) == Abs(y) {
      DifferenceEqual(f, t, k);
    } else {
      DifferenceChanged(f, t, k);
      CompatibleWalksSorted(x, y);
      GenerateIsDifference(x, y, false);
      PatchCons(Member(k, GenerateMergePatch(Some(x), Some(y), false).value),
          GenerateMembers(from[1..], goal[1..], cs, h));
    }
  }

  /** The generated patch is the difference of the two values, and NULL stands for no difference. */
  lemma {:induction false} GenerateIsDifference(from: Json, goal: Json, cs: bool)
    requires Plain(from, cs) && Plain(goal, cs) && WalksSorted(from, goal, cs) && Height(goal) <= CIRCULAR_LIMIT
    ensures var g := GenerateMergePatch(Some(from), Some(goal), cs);
            && (g.None? <==> from.Object? && goal.Object? && Abs(from) == Abs(goal))
            && (g.Some? ==>
                  Abs(g.value) == Difference(Abs(from), Abs(goal)) && KeysUnique(g.value, true) && Fits(g.value))
            && (g.Some? && Plain(goal, false) && WalksSorted(from, goal, false) ==> KeysUnique(g.value, false))
    decreases Height(from), 1
  {
    if from.Object? && goal.Object? {
      hide OrdersAgree, SortList, GenerateMembers, DifferenceMembers, AbsMembers;
      var x, y := from.members, goal.members;
      if !cs {
        PlainFoldedIsPlain(from);
        PlainFoldedIsPlain(goal);
        SortedCompatible(x, y);
      }
      SortedPlain(x);
      SortedPlain(y);
      SortedShared(x, y);
      var h := Height(from);
      WalkGenerates(SortList(x, true), SortList(y, true), cs, h);
      DifferenceEmpty(AbsMembers(x), AbsMembers(y));
      var ms := GenerateMembers(SortList(x, true), SortList(y, true), cs, h);
      NoneIfEmpty(ms);
      PatchUnique(ms);
      if OrdersAgree(x, y) {
        GeneratedKeys(x, y, ms);
      }
    } else {
      DuplicateIsIdentity(goal);
      LowFits(goal);
      if !cs {
        PlainFoldedIsPlain(goal);
      }
    }
  }

  lemma PatchUnique(ms: Members)
    requires Patch(ms)
    ensures KeysUnique(Object(ms), true)
  {
    forall i | 0 <= i < |ms| ensures KeysUnique(ms[i].value, true) {
      UniqueFoldedTree(ms[i].value);
    }
  }

  lemma NoneIfEmpty(ms: Members)
    ensures ms == [] <==> AbsMembers(ms) == map[]
  {
    AbsMembersKeys(ms);
    if ms != [] {
      assert ms[0].key in KeySet(ms);
    }
  }

  /** The keys of a difference are keys of its two sides, so they are distinct modulo case. */
  lemma GeneratedKeys(x: Members, y: Members, ms: Members)
    requires OrdersAgree(x, y) && Patch(ms)
    requires AbsMembers(ms) == DifferenceMembers(AbsMembers(x), VObject(AbsMembers(y)))
    ensures KeysUnique(Object(ms), false)
  {
    hide Less;
    AbsMembersKeys(x);
    AbsMembersKeys(y);
    AbsMembersKeys(ms);
    forall i, j | 0 <= i < j < |ms| ensures !SameKey(ms[i].key, ms[j].key, false) {
      assert ms[i].key in KeySet(ms) && ms[j].key in KeySet(ms);
      assert !SameKey(ms[i].key, ms[j].key, true);
      AgreedKeys(x, y, ms[i].key, ms[j].key, false);
      CompareZeroIsSameKey(ms[i].key, ms[j].key, false);
    }
  }

  lemma {:induction false} NoClashWithNothing(target: Option<Value>, patch: Value)
    requires target.Some? ==> !target.value.VObject?
    ensures NoClash(target, patch)
    decreases patch
  {
    if patch.VObject? {
      forall l | l in patch.members ensures NoClash(Get(MembersOf(target), l), patch.members[l]) {
        NoClashWithNothing(None, patch.members[l]);
      }
    }
  }

  lemma DifferenceKeysAgree(x: Members, y: Members)
    requires OrdersAgree(x, y)
    ensures var f, d := AbsMembers(x), DifferenceMembers(AbsMembers(x), VObject(AbsMembers(y)));
            forall k, l :: k in f && l in d && SameKey(k, l, false) ==> k == l
  {
    hide Less;
    AbsMembersKeys(x);
    AbsMembersKeys(y);
    forall k, l | k in AbsMembers(x) && l in KeySet(x) + KeySet(y) && SameKey(k, l, false) ensures k == l {
      AgreedKeys(x, y, k, l, false);
      CompareZeroIsSameKey(k, l, false);
    }
  }

  /** The generated patch has no key that differs by case alone from one of the tree it is made for. */
  lemma {:induction false} DifferenceNoClash(from: Json, goal: Json)
    requires Plain(from, false) && Plain(goal, false) && WalksSorted(from, goal, false)
    ensures NoClash(Some(Abs(from)), Difference(Abs(from), Abs(goal)))
    decreases from
  {
    if from.Object? && goal.Object? {
      var x, y := from.members, goal.members;
      var f, t := AbsMembers(x), AbsMembers(y);
      hide Less, SameKey, OrdersAgree, AbsMembers, DifferenceMembers, KeysUnique, IntNumbers;
      DifferenceKeysAgree(x, y);
      forall l | l in DifferenceMembers(f, VObject(t)) ensures NoClash(Get(f, l), DifferenceMembers(f, VObject(t))[l]) {
        DifferenceAt(f, t, l);
        if l in t && l in f {
          var a, b := SharedMember(x, y, l);
          DifferenceNoClash(a, b);
        } else if l in t {
          NoClashWithNothing(None, t[l]);
        }
      }
    } else if !from.Object? {
      NoClashWithNothing(Some(Abs(from)), Abs(goal));
    }
  }

  lemma DifferenceAt(f: map<Text, Value>, t: map<Text, Value>, l: Text)
    requires l in DifferenceMembers(f, VObject(t))
    ensures l in f || l in t
    ensures DifferenceMembers(f, VObject(t))[l] ==
            if l !in t then VNull else if l !in f then t[l] else Difference(f[l], t[l])
  {
  }

  /** The values of a key that both objects have. */
  lemma SharedMember(x: Members, y: Members, l: Text) returns (a: Json, b: Json)
    requires Plain(Object(x), false) && Plain(Object(y), false) && SharedCompatible(x, y)
    requires l in AbsMembers(x) && l in AbsMembers(y)
    ensures a < Object(x) && Plain(a, false) && Plain(b, false) && Compatible(a, b)
    ensures Abs(a) == AbsMembers(x)[l] && Abs(b) == AbsMembers(y)[l]
  {
    hide Less, SameKey, OrdersAgree, AbsMembers, Abs;
    UniqueFoldedValues(x);
    UniqueFoldedValues(y);
    var m := MemberOfValue(x, l);
    var n := MemberOfValue(y, l);
    var i :| 0 <= i < |x| && x[i] == m;
    var j :| 0 <= j < |y| && y[j] == n;
    a, b := x[i].value, y[j].value;
  }

  /**
    The merge patch round trip where the orders agree. No patch means the trees are equal;
    a patch, merged under either case rule into a fresh copy of the first tree (the
    generator sorts the tree it is given), succeeds, and it gives the second tree exactly
    when every null member of the second is where the first already has one.
   */
  lemma MergeRoundTrip(from: Json, goal: Json, cs: bool, mergeCs: bool)
    requires Plain(from, cs && mergeCs) && Plain(goal, cs && mergeCs) && WalksSorted(from, goal, cs && mergeCs)
    requires Height(goal) <= CIRCULAR_LIMIT
    ensures var g := GenerateMergePatch(Some(from), Some(goal), cs);
            && (g.None? ==> Abs(from) == Abs(goal))
            && (g.Some? ==> MergePatch(Some(from), g.value, mergeCs).Some?)
            && (g.Some? ==> (Abs(MergePatch(Some(from), g.value, mergeCs).value) == Abs(goal)
                             <==> Restorable(Some(Abs(from)), Abs(goal))))
  {
    if !(cs && mergeCs) {
      PlainFoldedIsPlain(from);
      PlainFoldedIsPlain(goal);
    }
    GenerateIsDifference(from, goal, cs);
    var g := GenerateMergePatch(Some(from), Some(goal), cs);
    if g.Some? {
      if mergeCs {
        MergeIsRfc(Some(from), g.value);
      } else {
        DifferenceNoClash(from, goal);
        CaseInsensitiveMergeExact(Some(from), g.value);
      }
      Restored(Abs(from), Abs(goal));
    }
  }

  /** Trees whose keys are in lower case are compatible. */
  lemma {:induction false} LowerIsCompatible(from: Json, goal: Json)
    requires TreeLower(from) && TreeLower(goal)
    ensures Compatible(from, goal)
    decreases from
  {
    match (from, goal)
    case (Array(x), Array(y)) =>
      forall i | 0 <= i < |x| && i < |y| ensures Compatible(x[i], y[i]) {
        LowerIsCompatible(x[i], y[i]);
      }
    case (Object(x), Object(y)) =>
      forall k, l | k in KeySet(x) + KeySet(y) && l in KeySet(x) + KeySet(y)
        ensures Less(k, l, false) <==> Less(k, l, true)
      {
        CompareOnLowerCase(k, l, false);
      }
      forall i, j | 0 <= i < |x| && 0 <= j < |y| && x[i].key == y[j].key ensures Compatible(x[i].value, y[j].value) {
        LowerIsCompatible(x[i].value, y[j].value);
      }
    case _ =>
  }

  /** On lower-case keys case sensitivity makes no difference to the comparison. */
  lemma CompareJsonOnLower(a: Json, b: Json, cs: bool)
    requires TreeLower(a) && TreeLower(b)
    ensures CompareJson(a, b, cs) == CompareJson(a, b, true)
  {
    LowerIsCompatible(a, b);
    CompareJsonOnCompatible(a, b, cs);
  }

  /** No object on the way down from the root through objects has a null member. */
  predicate NoNullMembers(v: Json) {
    v.Object? ==> forall i :: 0 <= i < |v.members| ==> !v.members[i].value.Null? && NoNullMembers(v.members[i].value)
  }

  lemma {:induction false} NoNullsRestorable(from: Option<Value>, goal: Json)
    requires NoNullMembers(goal) && KeysUnique(goal, true)
    ensures Restorable(from, Abs(goal))
    decreases goal
  {
    if goal.Object? {
      var ms, t := goal.members, AbsMembers(goal.members);
      AbsMembersKeys(ms);
      forall k | k in t ensures t[k] != VNull && Restorable(Get(MembersOf(from), k), t[k]) {
        var i :| 0 <= i < |ms| && ms[i].key == k;
        AbsMembersAt(ms, i);
        NoNullsRestorable(Get(MembersOf(from), k), ms[i].value);
      }
    }
  }

  /** Without null members the round trip then always restores the target. */
  lemma MergeRoundTripWithoutNulls(from: Json, goal: Json, cs: bool, mergeCs: bool)
    requires Plain(from, cs && mergeCs) && Plain(goal, cs && mergeCs) && WalksSorted(from, goal, cs && mergeCs)
    requires Height(goal) <= CIRCULAR_LIMIT && NoNullMembers(goal)
    ensures var p := Patched(from, GenerateMergePatch(Some(from), Some(goal), cs), mergeCs);
            p.Some? && Abs(p.value) == Abs(goal)
  {
    MergeRoundTrip(from, goal, cs, mergeCs);
    if !(cs && mergeCs) {
      PlainFoldedIsPlain(goal);
    }
    NoNullsRestorable(Some(Abs(from)), goal);
  }

  /** Applying what the generator returned, if anything, to the tree it was generated from. */
  function Patched(from: Json, g: Option<Json>, c: bool): Option<Json> {
    if g.None? then Some(from) else MergePatch(Some(from), g.value, c)
  }
}
