/**
  When a generated merge patch leads from one tree to the other, for every pair of trees.

  The generator writes a member for each key of the target it does not meet in the source
  and a null for each key of the source it does not meet in the target. The walk meets
  keys in the order of strcmp, the lists may be sorted by another order: a key that both
  objects have may be written first and deleted afterwards. `c` is the case rule of the
  merge, `cs` that of the generator.
 */
module JsonMergeExact {
  import opened Basics
  import opened JsonTree
  import opened JsonObjects
  import opened JsonSort
  import opened JsonMerge
  import opened JsonMergeGenerate
  import opened JsonFolded

  // ---------------------------------------------------------------- merging any list of members

  /** All members with the key are nulls. */
  predicate OnlyNulls(s: Members, k: Text, c: bool) {
    forall i :: 0 <= i < |s| && SameKey(s[i].key, k, c) ==> s[i].value.Null?
  }

  /** What the first member of a patch list does. */
  function FirstTurn(cur: Members, p: Member<Json>, c: bool): Option<Members> {
    if p.value.Null? then Some(Without(cur, p.key, c))
    else
      match MergePatch(Former(cur, p.key, c), p.value, c)
      case None => None
      case Some(v) => Some(Without(cur, p.key, c) + [Member(p.key, v)])
  }

  lemma MergeTurn(cur: Members, p: Member<Json>, ps: Members, c: bool)
    ensures var t := FirstTurn(cur, p, c);
            MergeMembers(cur, [p] + ps, c) == if t.None? then None else MergeMembers(t.value, ps, c)
  {
    hide MergePatch;
    assert ([p] + ps)[1..] == ps;
  }

  lemma TurnFacts(cur: Members, p: Member<Json>, c: bool)
    requires UniqueKeys(cur, c) && FirstTurn(cur, p, c).Some?
    ensures var t := FirstTurn(cur, p, c).value;
            && UniqueKeys(t, c)
            && (forall m :: m in cur && !SameKey(p.key, m.key, c) ==> m in t)
            && (forall k :: (if SameKey(p.key, k, c) then p.value.Null? else Free(cur, k, c)) ==> Free(t, k, c))
  {
    hide MergePatch;
    WithoutFacts(cur, p.key, c);
    var w, t := Without(cur, p.key, c), FirstTurn(cur, p, c).value;
    forall k | if SameKey(p.key, k, c) then p.value.Null? else Free(cur, k, c) ensures Free(t, k, c) {
      forall i | 0 <= i < |t| ensures !SameKey(t[i].key, k, c) {
        if i < |w| {
          assert t[i] in w && t[i] in cur;
        }
      }
    }
  }

  /** Whether merging leaves the member of a key alone, and whether the key is gone in the end. */
  lemma {:induction false} MergeFacts(cur: Members, ps: Members, k: Text, c: bool)
    requires UniqueKeys(cur, c) && MergeMembers(cur, ps, c).Some?
    ensures var v := MergeMembers(cur, ps, c).value;
            && v.Object? && UniqueKeys(v.members, c)
            && (Free(ps, k, c) ==> forall m :: m in cur && m.key == k ==> m in v.members)
            && (OnlyNulls(ps, k, c) && (Free(cur, k, c) || !Free(ps, k, c)) ==> Free(v.members, k, c))
    decreases ps
  {
    hide MergePatch, SameKey, Without, Former;
    if ps != [] {
      var p, rest := ps[0], ps[1..];
      assert ps == [p] + rest;
      MergeTurn(cur, p, rest, c);
      var t := FirstTurn(cur, p, c).value;
      TurnFacts(cur, p, c);
      MergeFacts(t, rest, k, c);
      assert forall i :: 0 <= i < |rest| ==> rest[i] == ps[i + 1];
      FreeCons(p, rest, k, c);
      hide UniqueKeys, FirstTurn, MergeMembers;
    }
  }

  lemma FreeCons(p: Member<Json>, rest: Members, k: Text, c: bool)
    ensures Free([p] + rest, k, c) <==> !SameKey(p.key, k, c) && Free(rest, k, c)
    ensures OnlyNulls([p] + rest, k, c) <==> (SameKey(p.key, k, c) ==> p.value.Null?) && OnlyNulls(rest, k, c)
  {
    hide SameKey;
    var s := [p] + rest;
    assert s[0] == p && forall i :: 0 <= i < |rest| ==> rest[i] == s[i + 1];
  }

  // ---------------------------------------------------------------- the condition

  /** A value that a merge can write where nothing is. */
  predicate Writable(v: Json) {
    !v.Null? && Restorable(None, Abs(v))
  }

  /**
    The walk of the generator over two objects: a member of `goal` is written only while
    `from` has no member with this key still to come, and where it meets a key in both,
    it takes the values for equal only if they are, or the patch between them leads from
    one to the other.
   */
  predicate RestoresMembers(from: Members, goal: Members, cs: bool, c: bool, h: nat)
    requires from == [] || MembersHeight(from) < h
    decreases h, 0, |from| + |goal|
  {
    if goal == [] then true
    else if from == [] || CompareStrings(from[0].key, goal[0].key, true) > 0 then
      && Free(from, goal[0].key, c)
      && Writable(goal[0].value)
      && RestoresMembers(from, goal[1..], cs, c, h)
    else if CompareStrings(from[0].key, goal[0].key, true) < 0 then RestoresMembers(from[1..], goal, cs, c, h)
    else
      && (if CompareJson(from[0].value, goal[0].value, cs) then Abs(from[0].value) == Abs(goal[0].value)
          else !goal[0].value.Null? && Restores(from[0].value, goal[0].value, false, c))
      && RestoresMembers(from[1..], goal[1..], cs, c, h)
  }

  predicate Restores(from: Json, goal: Json, cs: bool, c: bool)
    decreases Height(from), 1
  {
    if !goal.Object? then true
    else if !from.Object? then Restorable(None, Abs(goal))
    else
      var x, y := from.members, goal.members;
      SortKeepsHeight(x, cs);
      RestoresMembers(SortList(x, cs), SortList(y, cs), cs, c, Height(from))
  }

  predicate DistinctMembers(s: Members, c: bool) {
    UniqueKeys(s, c) && MembersUnique(s, false)
  }

  lemma UniqueBelow(v: Json, c: bool)
    requires KeysUnique(v, false)
    ensures Distinct(v, c) && KeysUnique(v, c)
  {
    UniqueFoldedTree(v);
  }

  /** Merging into nothing. */
  lemma MergeIntoNothing(target: Option<Json>, v: Json, c: bool)
    requires target.Some? ==> !target.value.Object?
    requires KeysUnique(v, c) && Fits(v)
    ensures MergePatch(target, v, c).Some?
    ensures Abs(MergePatch(target, v, c).value) == Abs(v) <==> Restorable(None, Abs(v))
  {
    hide MergePatch, Rfc, Restorable;
    assert MergePatch(target, v, c) == MergePatch(None, v, c) by {
      SameBase(target, v, c);
    }
    if c {
      MergeIsRfc(None, v);
    } else {
      NoClashWithNothing(None, Abs(v));
      CaseInsensitiveMergeExact(None, v);
    }
    RestoredFromNothing(None, Abs(v));
  }

  lemma SameBase(target: Option<Json>, v: Json, c: bool)
    requires target.Some? ==> !target.value.Object?
    ensures MergePatch(target, v, c) == MergePatch(None, v, c)
  {
  }

  // ---------------------------------------------------------------- the walk

  /** The target as it stands: the members still to be walked, and others that the rest of the walk leaves alone. */
  predicate Walking(cur: Members, from: Members, goal: Members, c: bool) {
    && UniqueKeys(cur, c)
    && DistinctMembers(from, c) && DistinctMembers(goal, c) && LowMembers(goal)
    && (forall m :: m in from ==> m in cur)
    && (forall m :: m in cur ==> m in from || Free(goal, m.key, c))
  }

  /** The rest of the walk, merged into the target as it stands, gives `goal` exactly if the condition holds. */
  ghost predicate Exact(cur: Members, from: Members, goal: Members, cs: bool, c: bool, h: nat)
    requires from == [] || MembersHeight(from) < h
  {
    var r := MergeMembers(cur, GenerateMembers(from, goal, cs, h), c);
    && r.Some? && r.value.Object?
    && (AbsMembers(r.value.members) == (AbsMembers(cur) - KeySet(from)) + AbsMembers(goal)
        <==> RestoresMembers(from, goal, cs, c, h))
  }

  /** What the generator writes: nulls, and values for keys of `goal`; a null for each key only `from` has. */
  ghost predicate Generated(from: Members, goal: Members, ps: Members) {
    && (forall p :: p in ps ==> if p.value.Null? then p.key in KeySet(from) + KeySet(goal)
                                else p.key in KeySet(goal) && Fits(p.value))
    && (forall m :: m in from && m.key !in KeySet(goal) ==> Member(m.key, Json.Null) in ps)
  }

  lemma KeysOfCons<T>(s: seq<Member<T>>)
    requires s != []
    ensures KeySet(s) == {s[0].key} + KeySet(s[1..])
  {
    forall k | k in KeySet(s) ensures k == s[0].key || k in KeySet(s[1..]) {
      var i :| 0 <= i < |s| && s[i].key == k;
      if i > 0 { assert s[1..][i - 1].key == k; }
    }
    forall k | k in KeySet(s[1..]) ensures k in KeySet(s) {
      var i :| 0 <= i < |s| - 1 && s[1..][i].key == k;
      assert s[i + 1].key == k;
    }
  }

  /** One turn of the walk, which has written `ps` before the rest. */
  lemma GeneratedTurn(from: Members, goal: Members, x: Members, y: Members, ps: Members, rest: Members)
    requires Generated(x, y, rest)
    requires x == from || (from != [] && x == from[1..])
    requires y == goal || (goal != [] && y == goal[1..])
    requires forall p :: p in ps ==> if p.value.Null? then p.key in KeySet(from) + KeySet(goal)
                                     else p.key in KeySet(goal) && Fits(p.value)
    requires x != from && from[0].key !in KeySet(goal) ==> Member(from[0].key, Json.Null) in ps
    ensures Generated(from, goal, ps + rest)
  {
    hide Fits;
    if from != [] { KeysOfCons(from); }
    if goal != [] { KeysOfCons(goal); }
    hide KeySet;
  }

  lemma {:induction false} WalkFits(from: Members, goal: Members, cs: bool, h: nat)
    requires (from == [] || MembersHeight(from) < h) && LowMembers(goal)
    ensures Generated(from, goal, GenerateMembers(from, goal, cs, h))
    decreases h, 0, |from| + |goal|
  {
    hide CompareJson, GenerateMergePatch, Fits, Generated;
    if from == [] && goal == [] {
      NothingGenerated();
    } else if from == [] || (goal != [] && CompareStrings(from[0].key, goal[0].key, true) > 0) {
      WalkFits(from, goal[1..], cs, h);
      DuplicateIsIdentity(goal[0].value);
      LowFits(goal[0].value);
      GeneratedTurn(from, goal, from, goal[1..], [goal[0]], GenerateMembers(from, goal[1..], cs, h));
    } else if goal == [] || CompareStrings(from[0].key, goal[0].key, true) < 0 {
      WalkFits(from[1..], goal, cs, h);
      GeneratedTurn(from, goal, from[1..], goal, [Member(from[0].key, Json.Null)],
          GenerateMembers(from[1..], goal, cs, h));
    } else {
      var a, b, rest := from[0].value, goal[0].value, GenerateMembers(from[1..], goal[1..], cs, h);
      CompareZeroIsSameKey(from[0].key, goal[0].key, true);
      WalkFits(from[1..], goal[1..], cs, h);
      if CompareJson(a, b, cs) {
        GeneratedTurn(from, goal, from[1..], goal[1..], [], rest);
        assert [] + rest == rest;
      } else {
        PatchFits(a, b, false);
        var ps := AddItem(goal[0].key, GenerateMergePatch(Some(a), Some(b), false));
        GeneratedTurn(from, goal, from[1..], goal[1..], ps, rest);
      }
    }
  }

  lemma NothingGenerated()
    ensures Generated([], [], [])
  {
  }

  lemma {:induction false} PatchFits(from: Json, goal: Json, cs: bool)
    requires Height(goal) <= CIRCULAR_LIMIT
    ensures var g := GenerateMergePatch(Some(from), Some(goal), cs);
            && (g.None? ==> from.Object? && goal.Object?)
            && (g.Some? ==> Fits(g.value) && (g.value.Null? <==> goal.Null?))
    decreases Height(from), 1
  {
    if from.Object? && goal.Object? {
      hide Fits;
      var x, y := from.members, goal.members;
      SortKeepsHeight(x, cs);
      SortKeepsHeight(y, cs);
      WalkFits(SortList(x, cs), SortList(y, cs), cs, Height(from));
      var ps := GenerateMembers(SortList(x, cs), SortList(y, cs), cs, Height(from));
      FitsIfGenerated(SortList(x, cs), SortList(y, cs), ps);
    } else {
      DuplicateIsIdentity(goal);
      LowFits(goal);
    }
  }

  lemma FitsIfGenerated(x: Members, y: Members, ps: Members)
    requires Generated(x, y, ps)
    ensures Fits(Object(ps))
  {
    hide KeySet;
    forall i | 0 <= i < |ps| ensures ps[i].value.Null? || Fits(ps[i].value) {
      assert ps[i] in ps;
    }
  }

  /** The keys of a walk that is over for `k` leave it alone. */
  lemma FreeAfter(from: Members, goal: Members, ps: Members, k: Text, c: bool)
    requires Generated(from, goal, ps)
    ensures Free(goal, k, c) ==> OnlyNulls(ps, k, c)
    ensures Free(goal, k, c) && Free(from, k, c) ==> Free(ps, k, c)
  {
    hide Fits;
    forall i | 0 <= i < |ps| && SameKey(ps[i].key, k, c) && Free(goal, k, c)
      ensures ps[i].value.Null? && !Free(from, k, c)
    {
      assert ps[i] in ps && ps[i].key in KeySet(from) + KeySet(goal);
    }
  }

  /** A value counted on both sides of an equation of maps. */
  lemma MapStep(r: map<Text, Value>, d: map<Text, Value>, g: map<Text, Value>, k: Text, v: Value, w: Value)
    requires k !in g && k in r && r[k] == w
    ensures r == d + g[k := v] <==> r == d[k := w] + g && w == v
  {
    var a, b := d + g[k := v], d[k := w] + g;
    assert a[k] == v && b[k] == w;
    if w == v {
      assert a == b;
    }
  }

  lemma FreeKey(s: Members, k: Text, c: bool)
    requires Free(s, k, c)
    ensures k !in AbsMembers(s) && k !in KeySet(s)
  {
    AbsMembersKeys(s);
  }

  /** The walk goes on after the head of `goal` has been written or met, with the value `w`. */
  lemma StepWith(cur: Members, from: Members, goal: Members, r: Members, next: Members, rest: Members, w: Json)
    requires goal != [] && UniqueKeys(r, true) && UniqueKeys(goal, true) && Member(goal[0].key, w) in r
    requires AbsMembers(next) - KeySet(rest) == (AbsMembers(cur) - KeySet(from))[goal[0].key := Abs(w)]
    ensures AbsMembers(r) == (AbsMembers(cur) - KeySet(from)) + AbsMembers(goal) <==>
            AbsMembers(r) == (AbsMembers(next) - KeySet(rest)) + AbsMembers(goal[1..]) && Abs(w) == Abs(goal[0].value)
  {
    var m := Member(goal[0].key, w);
    UniqueTail(goal);
    AbsMembersKeys(goal[1..]);
    ValueInMembers(r, m);
    MapStep(AbsMembers(r), AbsMembers(cur) - KeySet(from), AbsMembers(goal[1..]), m.key, Abs(goal[0].value), Abs(w));
  }

  lemma DistinctTail(s: Members, c: bool)
    requires DistinctMembers(s, c) && s != []
    ensures DistinctMembers(s[1..], c) && Free(s[1..], s[0].key, c)
  {
    assert forall i :: 0 <= i < |s| - 1 ==> s[1..][i] == s[i + 1];
  }

  lemma FreeInTarget(cur: Members, from: Members, goal: Members, c: bool)
    requires Walking(cur, from, goal, c) && goal != [] && Free(from, goal[0].key, c)
    ensures Free(cur, goal[0].key, c) && Without(cur, goal[0].key, c) == cur && Former(cur, goal[0].key, c) == None
  {
    var k := goal[0].key;
    forall i | 0 <= i < |cur| ensures !SameKey(cur[i].key, k, c) {
      assert cur[i] in cur;
    }
  }

  /** The walk writes the head of `goal`, and `from` has no such key any more: nothing undoes that. */
  lemma WriteStep(cur: Members, from: Members, goal: Members, w: Json, cs: bool, c: bool, h: nat)
    requires from == [] || MembersHeight(from) < h
    requires Walking(cur, from, goal, c) && goal != [] && Free(from, goal[0].key, c)
    requires from == [] || CompareStrings(from[0].key, goal[0].key, true) > 0
    requires !goal[0].value.Null? && MergePatch(None, goal[0].value, c) == Some(w)
    requires Abs(w) == Abs(goal[0].value) <==> Restorable(None, Abs(goal[0].value))
    requires Exact(cur + [Member(goal[0].key, w)], from, goal[1..], cs, c, h)
    ensures Exact(cur, from, goal, cs, c, h)
  {
    hide MergePatch, Restorable, Fits, KeySet, Generated, CompareJson, GenerateMergePatch, RestoresMembers, Less;
    hide SameKey, MergeMembers;
    var m, rest := Member(goal[0].key, w), GenerateMembers(from, goal[1..], cs, h);
    var next := cur + [m];
    FreeInTarget(cur, from, goal, c);
    DuplicateIsIdentity(goal[0].value);
    MergeTurn(cur, goal[0], rest, c);
    TurnFacts(cur, goal[0], c);
    MergeFacts(next, rest, m.key, c);
    var r := MergeMembers(next, rest, c).value.members;
    DistinctTail(goal, c);
    WalkFits(from, goal[1..], cs, h);
    FreeAfter(from, goal[1..], rest, m.key, c);
    assert m in next && m in r;
    FreeKey(cur, m.key, c);
    FreeKey(from, m.key, c);
    ValueOfAppend(cur, m);
    ExactUnique(r, c);
    ExactUnique(goal, c);
    StepWith(cur, from, goal, r, next, from, w);
    UnfoldWrite(from, goal, cs, c, h);
  }

  lemma ExactUnique(s: Members, c: bool)
    requires UniqueKeys(s, c)
    ensures UniqueKeys(s, true)
  {
  }

  lemma UnfoldWrite(from: Members, goal: Members, cs: bool, c: bool, h: nat)
    requires (from == [] || MembersHeight(from) < h) && goal != []
    requires from == [] || CompareStrings(from[0].key, goal[0].key, true) > 0
    ensures GenerateMembers(from, goal, cs, h) ==
            AddItem(goal[0].key, Duplicate(goal[0].value)) + GenerateMembers(from, goal[1..], cs, h)
    ensures RestoresMembers(from, goal, cs, c, h) <==>
            Free(from, goal[0].key, c) && Writable(goal[0].value) && RestoresMembers(from, goal[1..], cs, c, h)
  {
  }

  /** Null members of `goal` are not written, and a key that `from` still has is deleted after it is written. */
  lemma LostStep(cur: Members, from: Members, goal: Members, cs: bool, c: bool, h: nat)
    requires from == [] || MembersHeight(from) < h
    requires Walking(cur, from, goal, c) && goal != []
    requires from == [] || CompareStrings(from[0].key, goal[0].key, true) > 0
    requires goal[0].value.Null? || !Free(from, goal[0].key, c)
    ensures Exact(cur, from, goal, cs, c, h)
  {
    hide MergePatch, Restorable, Fits, KeySet, CompareJson, GenerateMergePatch, GenerateMembers, RestoresMembers;
    hide Less, SameKey, MergeMembers;
    var k, rest := goal[0].key, GenerateMembers(from, goal[1..], cs, h);
    DuplicateIsIdentity(goal[0].value);
    LowFits(goal[0].value);
    UnfoldWrite(from, goal, cs, c, h);
    WalkFits(from, goal, cs, h);
    AllMerges(cur, GenerateMembers(from, goal, cs, h), from, goal, c);
    MergeTurn(cur, goal[0], rest, c);
    var t := FirstTurn(cur, goal[0], c).value;
    TurnFacts(cur, goal[0], c);
    MergeFacts(t, rest, k, c);
    DistinctTail(goal, c);
    WalkFits(from, goal[1..], cs, h);
    FreeAfter(from, goal[1..], rest, k, c);
    if !Free(from, k, c) {
      DeletedLater(from, goal[1..], rest, k, c);
    } else {
      SameItself(k, c);
      assert Free(t, k, c);
    }
    var r := MergeMembers(t, rest, c).value.members;
    FreeKey(r, k, c);
    AbsMembersKeys(goal);
    KeysOfCons(goal);
  }

  lemma SameItself(k: Text, c: bool)
    ensures SameKey(k, k, c)
  {
  }

  lemma AllMerges(cur: Members, ps: Members, from: Members, goal: Members, c: bool)
    requires Generated(from, goal, ps)
    ensures MergeMembers(cur, ps, c).Some?
  {
    hide KeySet, Fits, MergeMembers;
    forall i | 0 <= i < |ps| ensures ps[i].value.Null? || Fits(ps[i].value) {
      assert ps[i] in ps;
    }
    MergeMembersSome(cur, ps, c);
  }

  lemma DeletedLater(from: Members, goal: Members, ps: Members, k: Text, c: bool)
    requires Generated(from, goal, ps) && Free(goal, k, c) && !Free(from, k, c)
    ensures !Free(ps, k, c)
  {
    hide Fits;
    var i :| 0 <= i < |from| && SameKey(from[i].key, k, c);
    assert from[i] in from && from[i].key !in KeySet(goal);
    var p := Member(from[i].key, Json.Null);
    assert p in ps;
    var j :| 0 <= j < |ps| && ps[j] == p;
    assert SameKey(ps[j].key, k, c);
  }

  /** The member that a key of the rest of `from` names in the target. */
  lemma HeadInTarget(cur: Members, from: Members, goal: Members, c: bool)
    requires Walking(cur, from, goal, c) && from != []
    ensures var k := from[0].key;
            && UniqueKeys(cur, true)
            && k in AbsMembers(cur) && AbsMembers(cur)[k] == Abs(from[0].value)
            && Former(cur, k, c) == Some(from[0].value)
            && AbsMembers(Without(cur, k, c)) == AbsMembers(cur) - {k}
            && Free(Without(cur, k, c), k, c)
  {
    hide Abs;
    var m := from[0];
    assert m in from && m in cur;
    ExactUnique(cur, c);
    ValueInMembers(cur, m);
    var i :| 0 <= i < |cur| && cur[i] == m;
    SameItself(m.key, c);
    WithoutFacts(cur, m.key, c);
    assert FindKey(cur, m.key, c) == Some(i) by {
      var f := FindKey(cur, m.key, c);
      assert f.Some? && f.value <= i;
    }
    ValueOfRemoval(cur, i);
  }

  lemma WalkingOn(cur: Members, from: Members, goal: Members, c: bool, next: Members)
    requires Walking(cur, from, goal, c) && from != [] && UniqueKeys(next, c)
    requires forall m :: m in cur && !SameKey(m.key, from[0].key, c) ==> m in next
    requires forall m :: m in next ==> Free(goal, m.key, c) || (m in cur && m != from[0])
    ensures Walking(next, from[1..], goal, c)
  {
    hide SameKey;
    DistinctTail(from, c);
    assert forall m :: m in from[1..] ==> m in from;
    forall m | m in from[1..] ensures m in next {
      var i :| 0 <= i < |from| - 1 && from[1..][i] == m;
      assert !SameKey(m.key, from[0].key, c);
    }
    assert from == [from[0]] + from[1..];
  }

  lemma UnfoldRemove(from: Members, goal: Members, cs: bool, c: bool, h: nat)
    requires from != [] && MembersHeight(from) < h
    requires goal == [] || CompareStrings(from[0].key, goal[0].key, true) < 0
    ensures GenerateMembers(from, goal, cs, h) ==
            [Member(from[0].key, Json.Null)] + GenerateMembers(from[1..], goal, cs, h)
    ensures RestoresMembers(from, goal, cs, c, h) <==> RestoresMembers(from[1..], goal, cs, c, h)
  {
  }

  /** The walk writes a null for the head of `from`. */
  lemma RemoveStep(cur: Members, from: Members, goal: Members, cs: bool, c: bool, h: nat)
    requires from != [] && MembersHeight(from) < h
    requires Walking(cur, from, goal, c)
    requires goal == [] || CompareStrings(from[0].key, goal[0].key, true) < 0
    requires Exact(Without(cur, from[0].key, c), from[1..], goal, cs, c, h)
    ensures Exact(cur, from, goal, cs, c, h)
  {
    var k := from[0].key;
    assert AbsMembers(Without(cur, k, c)) - KeySet(from[1..]) == AbsMembers(cur) - KeySet(from) by {
      HeadInTarget(cur, from, goal, c);
      KeysOfCons(from);
    }
    assert MergeMembers(cur, GenerateMembers(from, goal, cs, h), c) ==
           MergeMembers(Without(cur, k, c), GenerateMembers(from[1..], goal, cs, h), c) by {
      UnfoldRemove(from, goal, cs, c, h);
      MergeTurn(cur, Member(k, Json.Null), GenerateMembers(from[1..], goal, cs, h), c);
    }
    UnfoldRemove(from, goal, cs, c, h);
    hide MergePatch, CompareJson, GenerateMergePatch, Abs, MergeMembers, KeySet, Without, GenerateMembers, Walking;
    hide AbsMembers, RestoresMembers, UniqueKeys;
  }

  lemma UnfoldMeet(from: Members, goal: Members, cs: bool, c: bool, h: nat)
    requires from != [] && goal != [] && MembersHeight(from) < h
    requires CompareStrings(from[0].key, goal[0].key, true) == 0
    ensures var a, b := from[0].value, goal[0].value;
            && from[0].key == goal[0].key
            && GenerateMembers(from, goal, cs, h) ==
               (if CompareJson(a, b, cs) then [] else AddItem(goal[0].key, GenerateMergePatch(Some(a), Some(b), false)))
               + GenerateMembers(from[1..], goal[1..], cs, h)
            && (RestoresMembers(from, goal, cs, c, h) <==>
                  && (if CompareJson(a, b, cs) then Abs(a) == Abs(b) else !b.Null? && Restores(a, b, false, c))
                  && RestoresMembers(from[1..], goal[1..], cs, c, h))
  {
    hide CompareJson, GenerateMergePatch;
    CompareZeroIsSameKey(from[0].key, goal[0].key, true);
    if CompareJson(from[0].value, goal[0].value, cs) {
      assert [] + GenerateMembers(from[1..], goal[1..], cs, h) == GenerateMembers(from[1..], goal[1..], cs, h);
    }
  }

  /** The walk meets a key, and merging gives its member the value `w`. */
  lemma MeetStep(cur: Members, from: Members, goal: Members, next: Members, w: Json, cs: bool, c: bool, h: nat)
    requires from != [] && goal != [] && MembersHeight(from) < h
    requires Walking(cur, from, goal, c) && CompareStrings(from[0].key, goal[0].key, true) == 0
    requires UniqueKeys(next, c) && Member(goal[0].key, w) in next
    requires AbsMembers(next) == AbsMembers(cur)[goal[0].key := Abs(w)]
    requires MergeMembers(cur, GenerateMembers(from, goal, cs, h), c) ==
             MergeMembers(next, GenerateMembers(from[1..], goal[1..], cs, h), c)
    requires var a, b := from[0].value, goal[0].value;
             Abs(w) == Abs(b) <==>
             if CompareJson(a, b, cs) then Abs(a) == Abs(b) else !b.Null? && Restores(a, b, false, c)
    requires Exact(next, from[1..], goal[1..], cs, c, h)
    ensures Exact(cur, from, goal, cs, c, h)
  {
    hide MergePatch, CompareJson, GenerateMergePatch, GenerateMembers, RestoresMembers, Less, SameKey, MergeMembers,
        Restores, Abs, AbsMembers, KeySet, Walking, UniqueKeys, Free;
    UnfoldMeet(from, goal, cs, c, h);
    MetStays(cur, from, goal, next, w, cs, c, h);
    var r := MergeMembers(next, GenerateMembers(from[1..], goal[1..], cs, h), c).value.members;
    StepWith(cur, from, goal, r, next, from[1..], w);
  }

  lemma MetStays(cur: Members, from: Members, goal: Members, next: Members, w: Json, cs: bool, c: bool, h: nat)
    requires from != [] && goal != [] && MembersHeight(from) < h
    requires Walking(cur, from, goal, c) && from[0].key == goal[0].key
    requires UniqueKeys(next, c) && Member(goal[0].key, w) in next
    requires AbsMembers(next) == AbsMembers(cur)[goal[0].key := Abs(w)]
    requires MergeMembers(next, GenerateMembers(from[1..], goal[1..], cs, h), c).Some?
    ensures var v := MergeMembers(next, GenerateMembers(from[1..], goal[1..], cs, h), c).value;
            v.Object? && UniqueKeys(v.members, true) && UniqueKeys(goal, true) && Member(goal[0].key, w) in v.members
    ensures AbsMembers(next) - KeySet(from[1..]) == (AbsMembers(cur) - KeySet(from))[goal[0].key := Abs(w)]
  {
    hide Fits, Generated, CompareJson, GenerateMembers, Less, SameKey, MergeMembers, Abs, AbsMembers, KeySet;
    var k, rest := goal[0].key, GenerateMembers(from[1..], goal[1..], cs, h);
    DistinctTail(goal, c);
    DistinctTail(from, c);
    WalkFits(from[1..], goal[1..], cs, h);
    FreeAfter(from[1..], goal[1..], rest, k, c);
    MergeFacts(next, rest, k, c);
    ExactUnique(goal, c);
    FreeKey(from[1..], k, c);
    KeysOfCons(from);
    SetOutside(AbsMembers(cur), KeySet(from[1..]), k, Abs(w));
    hide Walking, MembersUnique;
    ExactUnique(MergeMembers(next, rest, c).value.members, c);
  }

  lemma SetOutside(m: map<Text, Value>, s: set<Text>, k: Text, v: Value)
    requires k !in s
    ensures m[k := v] - s == (m - ({k} + s))[k := v]
  {
  }

  /** The walk meets a key whose value in `goal` is null: the member is deleted, or compares as equal. */
  lemma MeetNull(cur: Members, from: Members, goal: Members, cs: bool, c: bool, h: nat)
    requires from != [] && goal != [] && MembersHeight(from) < h
    requires Walking(cur, from, goal, c) && CompareStrings(from[0].key, goal[0].key, true) == 0
    requires goal[0].value.Null? && !CompareJson(from[0].value, goal[0].value, cs)
    ensures Exact(cur, from, goal, cs, c, h)
  {
    UnfoldMeet(from, goal, cs, c, h);
    hide MergePatch, Restorable, Fits, CompareJson, GenerateMembers, RestoresMembers;
    hide Less, SameKey, MergeMembers, Restores, Abs, KeySet;
    var k, rest := goal[0].key, GenerateMembers(from[1..], goal[1..], cs, h);
    DuplicateIsIdentity(goal[0].value);
    WalkFits(from, goal, cs, h);
    AllMerges(cur, GenerateMembers(from, goal, cs, h), from, goal, c);
    MergeTurn(cur, goal[0], rest, c);
    TurnFacts(cur, goal[0], c);
    MergeFacts(FirstTurn(cur, goal[0], c).value, rest, k, c);
    DistinctTail(goal, c);
    WalkFits(from[1..], goal[1..], cs, h);
    FreeAfter(from[1..], goal[1..], rest, k, c);
    SameItself(k, c);
    FreeKey(MergeMembers(cur, GenerateMembers(from, goal, cs, h), c).value.members, k, c);
    AbsMembersKeys(goal);
    KeysOfCons(goal);
  }

  /** The walk writes nothing for a key that both have, so the member of the target stays. */
  lemma KeepStep(cur: Members, from: Members, goal: Members, cs: bool, c: bool, h: nat)
    requires from != [] && goal != [] && MembersHeight(from) < h
    requires Walking(cur, from, goal, c) && CompareStrings(from[0].key, goal[0].key, true) == 0
    requires var a, b := from[0].value, goal[0].value;
             CompareJson(a, b, cs) ||
             (GenerateMergePatch(Some(a), Some(b), false).None? && (Abs(a) == Abs(b) <==> Restores(a, b, false, c)))
    requires Exact(cur, from[1..], goal[1..], cs, c, h)
    ensures Exact(cur, from, goal, cs, c, h)
  {
    hide CompareJson, GenerateMergePatch, GenerateMembers, RestoresMembers, SameKey, MergeMembers, Restores, Abs, Exact;
    var a, b := from[0].value, goal[0].value;
    UnfoldMeet(from, goal, cs, c, h);
    HeadInTarget(cur, from, goal, c);
    PatchFits(a, b, false);
    var rest := GenerateMembers(from[1..], goal[1..], cs, h);
    assert [] + rest == rest;
    var k := goal[0].key;
    assert AbsMembers(cur)[k := Abs(a)] == AbsMembers(cur);
    assert from[0] in from && from[0] == Member(k, a);
    MeetStep(cur, from, goal, cur, a, cs, c, h);
  }

  /** The walk writes a patch for a key that both have, and the merge replaces the member by what it gives. */
  lemma PatchStep(cur: Members, from: Members, goal: Members, g: Json, w: Json, cs: bool, c: bool, h: nat)
    requires from != [] && goal != [] && MembersHeight(from) < h
    requires Walking(cur, from, goal, c) && CompareStrings(from[0].key, goal[0].key, true) == 0
    requires !CompareJson(from[0].value, goal[0].value, cs) && !goal[0].value.Null?
    requires GenerateMergePatch(Some(from[0].value), Some(goal[0].value), false) == Some(g) && !g.Null?
    requires MergePatch(Some(from[0].value), g, c) == Some(w)
    requires Abs(w) == Abs(goal[0].value) <==> Restores(from[0].value, goal[0].value, false, c)
    requires Exact(Without(cur, goal[0].key, c) + [Member(goal[0].key, w)], from[1..], goal[1..], cs, c, h)
    ensures Exact(cur, from, goal, cs, c, h)
  {
    hide CompareJson, GenerateMergePatch, GenerateMembers, RestoresMembers, MergeMembers, Restores, Abs, Exact;
    hide MergePatch, SameKey, Less, Former;
    UnfoldMeet(from, goal, cs, c, h);
    HeadInTarget(cur, from, goal, c);
    var k, rest := goal[0].key, GenerateMembers(from[1..], goal[1..], cs, h);
    MergeTurn(cur, Member(k, g), rest, c);
    TurnFacts(cur, Member(k, g), c);
    ValueReplaced(cur, Without(cur, k, c), Member(k, w), c);
    hide UniqueKeys, Without, FirstTurn;
    MeetStep(cur, from, goal, Without(cur, k, c) + [Member(k, w)], w, cs, c, h);
  }

  lemma ValueReplaced(cur: Members, rest: Members, m: Member<Json>, c: bool)
    requires AbsMembers(rest) == AbsMembers(cur) - {m.key} && Free(rest, m.key, c)
    ensures AbsMembers(rest + [m]) == AbsMembers(cur)[m.key := Abs(m.value)]
  {
    hide Abs;
    FreeKey(rest, m.key, c);
    ValueOfAppend(rest, m);
  }

  lemma WalkStarts(s: Members, t: Members, goal: Members, c: bool)
    requires DistinctMembers(s, c) && DistinctMembers(goal, c) && LowMembers(goal)
    requires multiset(s) == multiset(t)
    ensures Walking(s, t, goal, c) && AbsMembers(s) - KeySet(t) == map[]
  {
    hide SameKey;
    PermutationKeepsUnique(s, t, c);
    SameMembers(s, t);
    AbsMembersKeys(s);
    KeysOfPermutation(s, t);
    forall i | 0 <= i < |t| ensures KeysUnique(t[i].value, false) {
      assert t[i] in s;
    }
  }

  lemma SameMembers(s: Members, t: Members)
    requires multiset(s) == multiset(t)
    ensures forall m :: m in s <==> m in t
  {
    forall m ensures m in s <==> m in t {
      assert m in s <==> m in multiset(s);
      assert m in t <==> m in multiset(t);
    }
  }

  lemma {:induction false} WalkExact(cur: Members, from: Members, goal: Members, cs: bool, c: bool, h: nat)
    requires from == [] || MembersHeight(from) < h
    requires Walking(cur, from, goal, c)
    ensures Exact(cur, from, goal, cs, c, h)
    decreases h, 0, |from| + |goal|
  {
    hide CompareJson, GenerateMergePatch, GenerateMembers, RestoresMembers, MergeMembers, Restores, Abs, Exact;
    hide MergePatch, SameKey, Less;
    if from == [] && goal == [] {
      NothingToWalk(cur, cs, c, h);
    } else if from == [] || (goal != [] && CompareStrings(from[0].key, goal[0].key, true) > 0) {
      var v := goal[0].value;
      if v.Null? || !Free(from, goal[0].key, c) {
        LostStep(cur, from, goal, cs, c, h);
      } else {
        LowFits(v);
        UniqueBelow(v, c);
        MergeIntoNothing(None, v, c);
        var w := MergePatch(None, v, c).value;
        WalkingWritten(cur, from, goal, w, c);
        WalkExact(cur + [Member(goal[0].key, w)], from, goal[1..], cs, c, h);
        WriteStep(cur, from, goal, w, cs, c, h);
      }
    } else if goal == [] || CompareStrings(from[0].key, goal[0].key, true) < 0 {
      WalkingRemoved(cur, from, goal, c);
      WalkExact(Without(cur, from[0].key, c), from[1..], goal, cs, c, h);
      RemoveStep(cur, from, goal, cs, c, h);
    } else {
      MeetExact(cur, from, goal, cs, c, h);
    }
  }

  lemma NothingToWalk(cur: Members, cs: bool, c: bool, h: nat)
    ensures Exact(cur, [], [], cs, c, h)
  {
    assert AbsMembers([]) == map[];
    assert AbsMembers(cur) - KeySet<Json>([]) + map[] == AbsMembers(cur);
  }

  lemma WalkingWritten(cur: Members, from: Members, goal: Members, w: Json, c: bool)
    requires Walking(cur, from, goal, c) && goal != [] && Free(from, goal[0].key, c)
    ensures Walking(cur + [Member(goal[0].key, w)], from, goal[1..], c)
  {
    FreeInTarget(cur, from, goal, c);
    DistinctTail(goal, c);
  }

  lemma WalkingRemoved(cur: Members, from: Members, goal: Members, c: bool)
    requires Walking(cur, from, goal, c) && from != []
    ensures Walking(Without(cur, from[0].key, c), from[1..], goal, c)
  {
    hide SameKey;
    WithoutFacts(cur, from[0].key, c);
    SameItself(from[0].key, c);
    WalkingOn(cur, from, goal, c, Without(cur, from[0].key, c));
  }

  lemma WalkingMet(cur: Members, from: Members, goal: Members, c: bool, next: Members)
    requires Walking(cur, from, goal, c) && from != [] && goal != [] && from[0].key == goal[0].key
    requires UniqueKeys(next, c)
    requires forall m :: m in cur && !SameKey(m.key, from[0].key, c) ==> m in next
    requires forall m :: m in next ==> m.key == from[0].key || m in cur
    ensures Walking(next, from[1..], goal[1..], c)
  {
    hide SameKey;
    DistinctTail(goal, c);
    assert forall i :: 0 <= i < |goal| - 1 ==> goal[1..][i] == goal[i + 1];
    assert Walking(cur, from, goal[1..], c);
    WalkingOn(cur, from, goal[1..], c, next);
  }

  lemma WalkingPatched(cur: Members, from: Members, goal: Members, w: Json, c: bool)
    requires Walking(cur, from, goal, c) && from != [] && goal != [] && from[0].key == goal[0].key
    ensures Walking(Without(cur, goal[0].key, c) + [Member(goal[0].key, w)], from[1..], goal[1..], c)
  {
    var k := goal[0].key;
    WithoutFacts(cur, k, c);
    var next := Without(cur, k, c) + [Member(k, w)];
    assert UniqueKeys(next, c);
    hide SameKey;
    WalkingMet(cur, from, goal, c, next);
  }

  lemma EqualKeys(k: Text, l: Text)
    requires CompareStrings(k, l, true) == 0
    ensures k == l
  {
    CompareZeroIsSameKey(k, l, true);
  }

  lemma {:induction false} MeetExact(cur: Members, from: Members, goal: Members, cs: bool, c: bool, h: nat)
    requires from != [] && goal != [] && MembersHeight(from) < h
    requires Walking(cur, from, goal, c) && CompareStrings(from[0].key, goal[0].key, true) == 0
    ensures Exact(cur, from, goal, cs, c, h)
    decreases h, 0, |from| + |goal| - 1
  {
    hide CompareJson, GenerateMergePatch, GenerateMembers, RestoresMembers, MergeMembers, Restores, Abs, Exact;
    hide MergePatch, SameKey, Less;
    var a, b := from[0].value, goal[0].value;
    EqualKeys(from[0].key, goal[0].key);
    if CompareJson(a, b, cs) {
      WalkingMet(cur, from, goal, c, cur);
      WalkExact(cur, from[1..], goal[1..], cs, c, h);
      KeepStep(cur, from, goal, cs, c, h);
    } else if b.Null? {
      MeetNull(cur, from, goal, cs, c, h);
    } else {
      UniqueBelow(a, c);
      UniqueBelow(b, c);
      PatchFits(a, b, false);
      MergeExactly(a, b, false, c);
      var g := GenerateMergePatch(Some(a), Some(b), false);
      if g.None? {
        WalkingMet(cur, from, goal, c, cur);
        WalkExact(cur, from[1..], goal[1..], cs, c, h);
        KeepStep(cur, from, goal, cs, c, h);
      } else {
        var w := MergePatch(Some(a), g.value, c).value;
        var next := Without(cur, goal[0].key, c) + [Member(goal[0].key, w)];
        WalkingPatched(cur, from, goal, w, c);
        WalkExact(next, from[1..], goal[1..], cs, c, h);
        PatchStep(cur, from, goal, g.value, w, cs, c, h);
      }
    }
  }

  lemma SortedDistinct(s: Members, cs: bool, c: bool)
    requires DistinctMembers(s, c)
    ensures DistinctMembers(SortList(s, cs), c)
    ensures UniqueKeys(s, true) && AbsMembers(SortList(s, cs)) == AbsMembers(s)
  {
    var t := SortList(s, cs);
    SortPermutes(s, cs);
    PermutationKeepsUnique(s, t, c);
    SameMembers(s, t);
    ExactUnique(s, c);
    SortKeepsValue(s, cs);
    hide SameKey;
    forall i | 0 <= i < |t| ensures KeysUnique(t[i].value, false) {
      assert t[i] in s;
    }
  }

  /** The whole walk, from the sorted members of both objects. */
  lemma ExactAtRoot(x: Members, y: Members, cs: bool, c: bool, h: nat)
    requires SortList(x, cs) == [] || MembersHeight(SortList(x, cs)) < h
    requires AbsMembers(x) - KeySet(SortList(x, cs)) == map[] && AbsMembers(SortList(y, cs)) == AbsMembers(y)
    requires Exact(x, SortList(x, cs), SortList(y, cs), cs, c, h)
    ensures var ms := GenerateMembers(SortList(x, cs), SortList(y, cs), cs, h);
            var r := if ms == [] then Some(Object(x)) else MergePatch(Some(Object(x)), Object(ms), c);
            && r.Some?
            && (Abs(r.value) == Abs(Object(y)) <==> RestoresMembers(SortList(x, cs), SortList(y, cs), cs, c, h))
  {
    hide GenerateMembers, RestoresMembers, SortList, KeySet, AbsMembers;
    assert map[] + AbsMembers(y) == AbsMembers(y);
  }

  /** Where one of the two is not an object, the patch is the target itself. */
  lemma MergeOther(from: Json, goal: Json, c: bool)
    requires !from.Object? || !goal.Object?
    requires KeysUnique(goal, c) && Fits(goal)
    ensures MergePatch(Some(from), goal, c).Some?
    ensures Abs(MergePatch(Some(from), goal, c).value) == Abs(goal) <==> Restores(from, goal, true, c)
  {
    if goal.Object? {
      MergeIntoNothing(Some(from), goal, c);
    } else {
      DuplicateIsIdentity(goal);
    }
  }

  /**
    The merge patch round trip, for every pair of trees with distinct keys: what the
    generator returns, merged into a fresh copy of the first tree, gives the second tree
    exactly if the walk restores it.
   */
  lemma {:induction false} MergeExactly(from: Json, goal: Json, cs: bool, c: bool)
    requires Distinct(from, c) && Distinct(goal, c) && Height(goal) <= CIRCULAR_LIMIT
    ensures var p := Patched(from, GenerateMergePatch(Some(from), Some(goal), cs), c);
            p.Some? && (Abs(p.value) == Abs(goal) <==> Restores(from, goal, cs, c))
    decreases Height(from), 1
  {
    hide CompareJson, GenerateMembers, RestoresMembers, MergeMembers, SameKey, Less;
    if from.Object? && goal.Object? {
      hide Abs;
      var x, y := from.members, goal.members;
      SortPermutes(x, cs);
      SortPermutes(y, cs);
      SortKeepsHeight(x, cs);
      SortKeepsHeight(y, cs);
      SortedDistinct(y, cs, c);
      WalkStarts(x, SortList(x, cs), SortList(y, cs), c);
      WalkExact(x, SortList(x, cs), SortList(y, cs), cs, c, Height(from));
      ExactAtRoot(x, y, cs, c, Height(from));
    } else {
      DuplicateIsIdentity(goal);
      LowFits(goal);
      MergeOther(from, goal, c);
    }
  }

  // ---------------------------------------------------------------- on the keys alone

  /** The round trip from one tree to another, through the generator with `cs` and the merge with `c`. */
  predicate RoundTrips(from: Json, goal: Json, cs: bool, c: bool) {
    var p := Patched(from, GenerateMergePatch(Some(from), Some(goal), cs), c);
    p.Some? && Abs(p.value) == Abs(goal)
  }

  /** No key is written by the walk while `from` has it still to come. */
  predicate InStep(from: Members, goal: Members, c: bool)
    decreases |from| + |goal|
  {
    if goal == [] then true
    else if from == [] || CompareStrings(from[0].key, goal[0].key, true) > 0 then
      Free(from, goal[0].key, c) && InStep(from, goal[1..], c)
    else if CompareStrings(from[0].key, goal[0].key, true) < 0 then InStep(from[1..], goal, c)
    else InStep(from[1..], goal[1..], c)
  }

  /** Member values that are texts, booleans or C ints. */
  predicate Flat(s: Members) {
    forall i :: 0 <= i < |s| ==>
          (var v := s[i].value; IntNumbers(v) && !v.Null? && !v.Array? && !v.Object?)
  }

  lemma {:induction false} FlatWalk(from: Members, goal: Members, cs: bool, c: bool, h: nat)
    requires (from == [] || MembersHeight(from) < h) && Flat(from) && Flat(goal)
    ensures RestoresMembers(from, goal, cs, c, h) <==> InStep(from, goal, c)
    decreases |from| + |goal|
  {
    if goal != [] {
      if from == [] || CompareStrings(from[0].key, goal[0].key, true) > 0 {
        FlatWalk(from, goal[1..], cs, c, h);
      } else if CompareStrings(from[0].key, goal[0].key, true) < 0 {
        FlatWalk(from[1..], goal, cs, c, h);
      } else {
        FlatWalk(from[1..], goal[1..], cs, c, h);
        FlatCompare(from[0].value, goal[0].value, cs);
      }
    }
  }

  lemma FlatCompare(a: Json, b: Json, cs: bool)
    requires IntNumbers(a) && IntNumbers(b) && !a.Object? && !b.Object? && !a.Array? && !b.Array?
    ensures CompareJson(a, b, cs) <==> Abs(a) == Abs(b)
  {
    if a.Number? && b.Number? {
      SameNumberIsEquality(a.d, b.d);
    }
  }

  /** Between flat objects only the keys decide. */
  lemma FlatExactly(x: Members, y: Members, cs: bool, c: bool)
    requires UniqueKeys(x, c) && UniqueKeys(y, c) && Flat(x) && Flat(y)
    ensures RoundTrips(Object(x), Object(y), cs, c) <==> InStep(SortList(x, cs), SortList(y, cs), c)
  {
    hide CompareJson, GenerateMergePatch, RestoresMembers, SameKey, Less, SortList, InStep, MergePatch, Abs;
    FlatFacts(x, c);
    FlatFacts(y, c);
    MergeExactly(Object(x), Object(y), cs, c);
    SortKeepsHeight(x, cs);
    SortedFlat(x, cs);
    SortedFlat(y, cs);
    FlatWalk(SortList(x, cs), SortList(y, cs), cs, c, Height(Object(x)));
  }

  lemma FlatFacts(s: Members, c: bool)
    requires UniqueKeys(s, c) && Flat(s)
    ensures Distinct(Object(s), c) && Height(Object(s)) <= 1
  {
    MembersHeightBound(s, 0);
  }

  lemma SortedFlat(s: Members, cs: bool)
    requires Flat(s)
    ensures Flat(SortList(s, cs))
  {
    SortPermutes(s, cs);
    SameMembers(s, SortList(s, cs));
    forall i | 0 <= i < |s|
      ensures var v := SortList(s, cs)[i].value; IntNumbers(v) && !v.Null? && !v.Array? && !v.Object?
    {
      assert SortList(s, cs)[i] in s;
    }
  }

  /** With one member on either side: a change of case alone gets through if the old key comes first. */
  lemma RenamedKeyExactly(k: Text, l: Text, u: Json, v: Json, cs: bool, c: bool)
    requires Flat([Member(k, u)]) && Flat([Member(l, v)])
    ensures RoundTrips(Object([Member(k, u)]), Object([Member(l, v)]), cs, c) <==>
            SameKey(k, l, c) && k != l ==> Less(k, l, true)
  {
    hide RoundTrips, Flat;
    var x, y := [Member(k, u)], [Member(l, v)];
    FlatExactly(x, y, cs, c);
    assert SortList(x, cs) == x && SortList(y, cs) == y;
    CompareZeroIsSameKey(k, l, true);
    assert InStep(x[1..], y, c) && InStep(x, y[1..], c) && InStep(x[1..], y[1..], c);
  }

  /**
    One level down the default generator does not see a change in nothing but the case of
    keys, and a null deletes its member; any other value makes the round trip as it does
    at the root.
   */
  lemma NestedExactly(k: Text, a: Json, b: Json, c: bool)
    requires KeysUnique(a, false) && KeysUnique(b, false) && IntNumbers(a) && IntNumbers(b)
    requires Height(b) < CIRCULAR_LIMIT
    ensures RoundTrips(Object([Member(k, a)]), Object([Member(k, b)]), false, c) <==>
            if Abs(LowerKeys(a)) == Abs(LowerKeys(b)) then Abs(a) == Abs(b) else !b.Null? && RoundTrips(a, b, false, c)
  {
    hide CompareJson, GenerateMergePatch, MergePatch, Abs, RestoresMembers, LowerKeys, SortList;
    var x, y := [Member(k, a)], [Member(k, b)];
    CompareIgnoringCaseDecides(a, b);
    OnlyMember(k, a, c);
    OnlyMember(k, b, c);
    UniqueBelow(a, c);
    UniqueBelow(b, c);
    MergeExactly(Object(x), Object(y), false, c);
    MergeExactly(a, b, false, c);
    CompareZeroIsSameKey(k, k, true);
    SameItself(k, true);
    UnfoldMeet(x, y, false, c, Height(Object(x)));
    NothingToRestore(c, Height(Object(x)));
  }

  lemma NothingToRestore(c: bool, h: nat)
    ensures RestoresMembers([], [], false, c, h)
  {
  }

  lemma OnlyMember(k: Text, v: Json, c: bool)
    requires KeysUnique(v, false)
    ensures Distinct(Object([Member(k, v)]), c) && SortList([Member(k, v)], false) == [Member(k, v)]
    ensures MembersHeight([Member(k, v)]) < Height(Object([Member(k, v)])) <= Height(v) + 1
  {
    UniqueBelow(v, c);
    MembersHeightBound([Member(k, v)], Height(v));
  }

  // ---------------------------------------------------------------- where the orders disagree

  lemma SortedTwo(k: Text, l: Text, u: Json, v: Json)
    requires Less(k, l, false)
    ensures SortList([Member(k, u), Member(l, v)], false) == [Member(k, u), Member(l, v)]
    ensures SortList([Member(l, v)], false) == [Member(l, v)]
    ensures forall c: bool :: !SameKey(k, l, c)
  {
    CompareZeroIsSameKey(k, l, false);
    assert NeighboursAscend([Member(k, u), Member(l, v)], false);
  }

  lemma WalksTwice(k: Text, l: Text, u: Json, v: Json, h: nat)
    requires MembersHeight([Member(k, u), Member(l, v)]) < h && Height(v) <= CIRCULAR_LIMIT
    requires Less(k, l, false) && Less(l, k, true)
    ensures GenerateMembers([Member(k, u), Member(l, v)], [Member(l, v)], false, h) ==
            [Member(l, v), Member(k, Json.Null), Member(l, Json.Null)]
  {
    hide CompareJson, CompareStrings, MembersHeight;
    var x, y := [Member(k, u), Member(l, v)], [Member(l, v)];
    CompareAntisymmetric(k, l, true);
    assert x[1..] == y && y[1..] == [];
    DuplicateIsIdentity(v);
    MembersHeightBound(y, Height(v));
    assert x[1].value == v && MembersHeight(y) <= Height(v) <= MembersHeight(x);
    assert GenerateMembers([], [], false, h) == [];
    assert GenerateMembers(y, [], false, h) == [Member(l, Json.Null)];
    assert GenerateMembers(x, [], false, h) == [Member(k, Json.Null), Member(l, Json.Null)];
  }

  lemma WithoutTwo(k: Text, l: Text, u: Json, v: Json, c: bool)
    requires !SameKey(k, l, c)
    ensures Without([Member(k, u), Member(l, v)], k, c) == [Member(l, v)]
    ensures Without([Member(k, u), Member(l, v)], l, c) == [Member(k, u)]
    ensures Without([Member(l, v)], l, c) == []
  {
    var x := [Member(k, u), Member(l, v)];
    SameItself(k, c);
    SameItself(l, c);
    assert x[1..] == [Member(l, v)] && FindKey(x[1..], l, c) == Some(0);
    assert FindKey(x, l, c) == Some(1) && FindKey(x, k, c) == Some(0);
  }

  lemma ScalarMerges(v: Json, c: bool)
    requires !v.Object? && Height(v) <= CIRCULAR_LIMIT
    ensures forall t: Option<Json> :: MergePatch(t, v, c) == Some(v)
  {
    DuplicateIsIdentity(v);
  }

  lemma MergesToNothing(k: Text, l: Text, u: Json, v: Json, c: bool)
    requires !SameKey(k, l, c) && !v.Null? && !v.Object? && Height(v) <= CIRCULAR_LIMIT
    ensures MergeMembers([Member(k, u), Member(l, v)], [Member(l, v), Member(k, Json.Null), Member(l, Json.Null)], c)
            == Some(Object([]))
  {
    hide MergePatch, MergeMembers, SameKey, Without, Former;
    var x, nk, nl := [Member(k, u), Member(l, v)], Member(k, Json.Null), Member(l, Json.Null);
    ScalarMerges(v, c);
    WithoutTwo(k, l, u, v, c);
    MergeTurn(x, Member(l, v), [nk, nl], c);
    MergeTurn(x, nk, [nl], c);
    MergeTurn([Member(l, v)], nl, [], c);
    NothingMerged(c);
    assert [Member(k, u)] + [Member(l, v)] == x && [Member(l, v)] + [nk, nl] == [Member(l, v), nk, nl];
    assert [nk] + [nl] == [nk, nl] && [nl] + [] == [nl];
  }

  lemma NothingMerged(c: bool)
    ensures MergeMembers([], [], c) == Some(Object([]))
  {
  }

  /**
    Wherever the sort puts a key first that strcmp puts second, the default generator
    writes the other key before it meets it, and a null for it afterwards: merging deletes
    a member that both objects have.
   */
  lemma DisagreeingOrdersDelete(k: Text, l: Text, u: Json, v: Json, c: bool)
    requires Less(k, l, false) && Less(l, k, true)
    requires !v.Null? && !v.Object? && Height(v) <= CIRCULAR_LIMIT
    ensures var from, goal := Object([Member(k, u), Member(l, v)]), Object([Member(l, v)]);
            var g := Object([Member(l, v), Member(k, Json.Null), Member(l, Json.Null)]);
            && GenerateMergePatch(Some(from), Some(goal), false) == Some(g)
            && MergePatch(Some(from), g, c) == Some(Object([]))
  {
    hide GenerateMembers, MergeMembers, SameKey, Less, SortList;
    var x := [Member(k, u), Member(l, v)];
    SortedTwo(k, l, u, v);
    WalksTwice(k, l, u, v, Height(Object(x)));
    MergesToNothing(k, l, u, v, c);
  }

  /** Every key of the tree is from a set. */
  predicate KeysFrom(v: Json, keys: set<Text>) {
    match v
    case Array(items) => forall i :: 0 <= i < |items| ==> KeysFrom(items[i], keys)
    case Object(ms) => KeySet(ms) <= keys && forall i :: 0 <= i < |ms| ==> KeysFrom(ms[i].value, keys)
    case _ => true
  }

  predicate BothOrdersAgree(keys: set<Text>) {
    forall k, l :: k in keys && l in keys ==> (Less(k, l, false) <==> Less(k, l, true))
  }

  /** Trees over a set of keys, with no key twice in an object. */
  predicate Over(v: Json, keys: set<Text>) {
    KeysFrom(v, keys) && KeysUnique(v, true) && IntNumbers(v)
  }

  predicate Target(v: Json, keys: set<Text>) {
    Over(v, keys) && NoNullMembers(v) && Height(v) <= CIRCULAR_LIMIT
  }

  lemma {:induction false} OverIsFolded(v: Json, keys: set<Text>)
    requires KeysFrom(v, keys) && KeysUnique(v, true)
    requires forall k, l :: k in keys && l in keys && SameKey(k, l, false) ==> k == l
    ensures KeysUnique(v, false)
    decreases v
  {
    match v
    case Array(items) =>
      forall i | 0 <= i < |items| ensures KeysUnique(items[i], false) {
        OverIsFolded(items[i], keys);
      }
    case Object(ms) =>
      forall i | 0 <= i < |ms| ensures KeysUnique(ms[i].value, false) {
        OverIsFolded(ms[i].value, keys);
      }
      forall i, j | 0 <= i < j < |ms| ensures !SameKey(ms[i].key, ms[j].key, false) {
        assert ms[i].key in KeySet(ms) && ms[j].key in KeySet(ms);
      }
    case _ =>
  }

  lemma {:induction false} OverIsCompatible(a: Json, b: Json, keys: set<Text>)
    requires KeysFrom(a, keys) && KeysFrom(b, keys) && BothOrdersAgree(keys)
    ensures Compatible(a, b)
    decreases a
  {
    hide Less;
    match (a, b)
    case (Array(x), Array(y)) =>
      forall i | 0 <= i < |x| && i < |y| ensures Compatible(x[i], y[i]) {
        OverIsCompatible(x[i], y[i], keys);
      }
    case (Object(x), Object(y)) =>
      forall i, j | 0 <= i < |x| && 0 <= j < |y| && x[i].key == y[j].key ensures Compatible(x[i].value, y[j].value) {
        OverIsCompatible(x[i].value, y[j].value, keys);
      }
      AgreeOver(x, y, keys);
      assert SharedCompatible(x, y);
    case _ =>
  }

  lemma AgreeOver(x: Members, y: Members, keys: set<Text>)
    requires KeySet(x) <= keys && KeySet(y) <= keys && BothOrdersAgree(keys)
    ensures OrdersAgree(x, y)
  {
    hide Less, KeySet;
  }

  /** Two keys that the orders arrange differently, the lesser one of the sort first. */
  lemma DisagreeingKeys(keys: set<Text>) returns (k: Text, l: Text)
    requires forall k, l :: k in keys && l in keys && SameKey(k, l, false) ==> k == l
    requires !BothOrdersAgree(keys)
    ensures k in keys && l in keys && Less(k, l, false) && Less(l, k, true)
  {
    hide CompareStrings, Lower;
    var a, b :| a in keys && b in keys && (Less(a, b, false) != Less(a, b, true));
    CompareZeroIsSameKey(a, b, false);
    CompareZeroIsSameKey(a, b, true);
    CompareZeroIsSameKey(a, a, true);
    CompareAntisymmetric(a, b, false);
    CompareAntisymmetric(a, b, true);
    if Less(a, b, false) {
      k, l := a, b;
    } else {
      k, l := b, a;
    }
  }

  /**
    The default generator on the trees over a set of keys distinct modulo case: every pair
    of them, the second without null members, makes the round trip exactly if ignoring the
    case of letters leaves the order of these keys as strcmp has it.
   */
  lemma OrdersDecide(keys: set<Text>, c: bool)
    requires forall k, l :: k in keys && l in keys && SameKey(k, l, false) ==> k == l
    ensures BothOrdersAgree(keys) <==>
            forall from, goal :: Over(from, keys) && Target(goal, keys) ==> RoundTrips(from, goal, false, c)
  {
    hide SameKey, Less;
    if BothOrdersAgree(keys) {
      forall from, goal | Over(from, keys) && Target(goal, keys) ensures RoundTrips(from, goal, false, c) {
        OverRoundTrips(from, goal, keys, c);
      }
    } else {
      var k, l := DisagreeingKeys(keys);
      TwoKeysOver(k, l, keys);
      TwoKeysFail(k, l, c);
    }
  }

  lemma OverRoundTrips(from: Json, goal: Json, keys: set<Text>, c: bool)
    requires forall k, l :: k in keys && l in keys && SameKey(k, l, false) ==> k == l
    requires BothOrdersAgree(keys) && Over(from, keys) && Target(goal, keys)
    ensures RoundTrips(from, goal, false, c)
  {
    hide SameKey, Less, BothOrdersAgree, GenerateMergePatch, MergePatch;
    OverIsFolded(from, keys);
    OverIsFolded(goal, keys);
    OverIsCompatible(from, goal, keys);
    CompatibleWalksSorted(from, goal);
    MergeRoundTripWithoutNulls(from, goal, false, c);
  }

  lemma TwoKeysFail(k: Text, l: Text, c: bool)
    requires Less(k, l, false) && Less(l, k, true)
    ensures !RoundTrips(Object([Member(k, True), Member(l, True)]), Object([Member(l, True)]), false, c)
  {
    hide GenerateMergePatch, MergePatch, Less;
    DisagreeingOrdersDelete(k, l, True, True, c);
    assert l in AbsMembers([Member(l, True)]);
    assert AbsMembers([]) == map[];
  }

  lemma TwoKeysOver(k: Text, l: Text, keys: set<Text>)
    requires k in keys && l in keys && Less(k, l, false)
    ensures Over(Object([Member(k, True), Member(l, True)]), keys) && Target(Object([Member(l, True)]), keys)
  {
    SortedTwo(k, l, True, True);
    assert !SameKey(k, l, true);
    hide Less;
    FlatFacts([Member(l, True)], true);
    var x, y := [Member(k, True), Member(l, True)], [Member(l, True)];
    assert KeySet(x) <= keys && KeySet(y) <= keys;
    assert UniqueKeys(x, true);
    assert KeysUnique(Object(x), true) && IntNumbers(Object(x)) && KeysFrom(Object(x), keys);
    assert KeysUnique(Object(y), true) && IntNumbers(Object(y)) && KeysFrom(Object(y), keys);
    assert NoNullMembers(Object(y));
  }
}
