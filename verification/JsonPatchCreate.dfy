/**
  Generating patches from two trees in memory: the patches themselves, and what the walk
  leaves of the trees, whose objects it sorts in place as it compares them.
 */
module JsonPatchCreate {
  import opened Basics
  import opened Decimals
  import opened JsonTree
  import opened JsonSort
  import opened JsonTails
  import opened JsonPointer
  import opened JsonPatch
  import opened JsonItems
  import opened JsonPatchInPlace

  // ---------------------------------------------------------------- what the walk leaves

  /** One side of create_patches: the objects that are compared with an object are sorted. */
  function Walked(a: Item, b: Json, cs: bool): Item
    decreases Height(Erase(a)), 1
  {
    match (a, b)
    case (ArrayItem(x), Array(y)) => ArrayItem(WalkedItems(x, y, cs, Height(Erase(a))))
    case (ObjectItem(x, tail), Object(y)) =>
      SortErases(x, cs);
      SortKeepsHeight(EraseMembers(x), cs);
      ObjectItem(WalkedMembers(SortList(x, cs), SortList(y, cs), cs, Height(Erase(a))), TailSorted(x, tail, cs))
    case _ => a
  }

  function WalkedItems(a: seq<Item>, b: seq<Json>, cs: bool, h: nat): seq<Item>
    requires a == [] || ItemsHeight(EraseItems(a)) < h
    decreases h, 0, |a| + |b|
  {
    if a == [] || b == [] then a
    else
      ErasedTail(a);
      [Walked(a[0], b[0], cs)] + WalkedItems(a[1..], b[1..], cs, h)
  }

  function WalkedMembers(a: seq<Member<Item>>, b: Members, cs: bool, h: nat): seq<Member<Item>>
    requires a == [] || MembersHeight(EraseMembers(a)) < h
    decreases h, 0, |a| + |b|
  {
    if a == [] || b == [] then a
    else
      ErasedMembersTail(a);
      var diff := CompareStrings(a[0].key, b[0].key, cs);
      if diff == 0 then [Member(a[0].key, Walked(a[0].value, b[0].value, cs))] + WalkedMembers(a[1..], b[1..], cs, h)
      else if diff < 0 then [a[0]] + WalkedMembers(a[1..], b, cs, h)
      else WalkedMembers(a, b[1..], cs, h)
  }

  // ---------------------------------------------------------------- the walk changes no value

  /** The walk changes nothing but the order of members. */
  lemma {:induction false} WalkedKeepsValue(a: Item, b: Json, cs: bool)
    requires KeysUnique(Erase(a), true)
    ensures Abs(Erase(Walked(a, b, cs))) == Abs(Erase(a))
    decreases Height(Erase(a)), 1
  {
    match (a, b)
    case (ArrayItem(x), Array(y)) => WalkedItemsKeepValue(x, y, cs, Height(Erase(a)));
    case (ObjectItem(x, tail), Object(y)) =>
      SortErases(x, cs);
      SortKeepsHeight(EraseMembers(x), cs);
      SortKeepsUniqueExact(EraseMembers(x), cs);
      SortKeepsUniqueValues(EraseMembers(x), cs);
      SortKeepsValue(EraseMembers(x), cs);
      WalkedMembersKeepValue(SortList(x, cs), SortList(y, cs), cs, Height(Erase(a)));
    case _ =>
  }

  lemma {:induction false} WalkedItemsKeepValue(a: seq<Item>, b: seq<Json>, cs: bool, h: nat)
    requires a == [] || ItemsHeight(EraseItems(a)) < h
    requires forall i :: 0 <= i < |a| ==> KeysUnique(Erase(a[i]), true)
    ensures AbsItems(EraseItems(WalkedItems(a, b, cs, h))) == AbsItems(EraseItems(a))
    decreases h, 0, |a| + |b|
  {
    if a != [] && b != [] {
      ErasedTail(a);
      WalkedKeepsValue(a[0], b[0], cs);
      WalkedItemsKeepValue(a[1..], b[1..], cs, h);
      var r := WalkedItems(a, b, cs, h);
      ErasedTail(r);
      assert AbsItems(EraseItems(a)) == [Abs(Erase(a[0]))] + AbsItems(EraseItems(a[1..]));
      assert AbsItems(EraseItems(r)) == [Abs(Erase(r[0]))] + AbsItems(EraseItems(r[1..]));
    }
  }

  lemma {:induction false} WalkedMembersKeepValue(a: seq<Member<Item>>, b: Members, cs: bool, h: nat)
    requires a == [] || MembersHeight(EraseMembers(a)) < h
    requires forall i :: 0 <= i < |a| ==> KeysUnique(Erase(a[i].value), true)
    ensures AbsMembers(EraseMembers(WalkedMembers(a, b, cs, h))) == AbsMembers(EraseMembers(a))
    decreases h, 0, |a| + |b|
  {
    hide CompareStrings, KeysUnique;
    if a != [] && b != [] {
      ErasedMembersTail(a);
      var diff := CompareStrings(a[0].key, b[0].key, cs);
      var r := WalkedMembers(a, b, cs, h);
      if diff == 0 {
        WalkedKeepsValue(a[0].value, b[0].value, cs);
        WalkedMembersKeepValue(a[1..], b[1..], cs, h);
        ErasedMembersTail(r);
        assert r[1..] == WalkedMembers(a[1..], b[1..], cs, h);
      } else if diff < 0 {
        WalkedMembersKeepValue(a[1..], b, cs, h);
        ErasedMembersTail(r);
        assert r[1..] == WalkedMembers(a[1..], b, cs, h);
      } else {
        WalkedMembersKeepValue(a, b[1..], cs, h);
      }
    }
  }

  // ---------------------------------------------------------------- create_patches

  lemma ErasedSlice(s: seq<Item>, i: nat)
    requires i <= |s|
    ensures EraseItems(s[i..]) == EraseItems(s)[i..]
  {
  }

  lemma ErasedMembersSlice(s: seq<Member<Item>>, i: nat)
    requires i <= |s|
    ensures EraseMembers(s[i..]) == EraseMembers(s)[i..]
  {
  }

  /** The items of one side from position `i` on fit under the height. */
  lemma SliceFits(s: seq<Item>, i: nat, h: nat)
    requires i <= |s| && (s == [] || ItemsHeight(EraseItems(s)) < h)
    ensures s[i..] == [] || ItemsHeight(EraseItems(s[i..])) < h
  {
    ErasedSlice(s, i);
    TailHeight(EraseItems(s), i);
  }

  lemma MemberSliceFits(s: seq<Member<Item>>, i: nat, h: nat)
    requires i <= |s| && (s == [] || MembersHeight(EraseMembers(s)) < h)
    ensures s[i..] == [] || MembersHeight(EraseMembers(s[i..])) < h
  {
    ErasedMembersSlice(s, i);
    MemberTailHeight(EraseMembers(s), i);
  }

  /** `done` is walked up to `i`; the rest of the walk completes it. */
  ghost predicate ItemsWalk(done: seq<Item>, a: seq<Item>, b: seq<Json>, i: nat, cs: bool, h: nat)
    requires a == [] || ItemsHeight(EraseItems(a)) < h
  {
    && i <= |a| && i <= |b| && |done| == |a| && done[i..] == a[i..]
    && (a[i..] == [] || ItemsHeight(EraseItems(a[i..])) < h)
    && done[..i] + WalkedItems(a[i..], b[i..], cs, h) == WalkedItems(a, b, cs, h)
  }

  lemma ItemsWalkStarts(a: seq<Item>, b: seq<Json>, cs: bool, h: nat)
    requires a == [] || ItemsHeight(EraseItems(a)) < h
    ensures ItemsWalk(a, a, b, 0, cs, h)
  {
    assert a[0..] == a && b[0..] == b && a[..0] == [];
  }

  lemma ItemsUnfold(a: seq<Item>, b: seq<Json>, i: nat, cs: bool, h: nat)
    requires i < |a| && i < |b| && ItemsHeight(EraseItems(a)) < h
    ensures ItemsHeight(EraseItems(a[i..])) < h && (a[i + 1..] == [] || ItemsHeight(EraseItems(a[i + 1..])) < h)
    ensures WalkedItems(a[i..], b[i..], cs, h) == [Walked(a[i], b[i], cs)] + WalkedItems(a[i + 1..], b[i + 1..], cs, h)
  {
    hide Walked;
    SliceFits(a, i, h);
    SliceFits(a, i + 1, h);
    assert a[i..][1..] == a[i + 1..] && b[i..][1..] == b[i + 1..];
  }

  lemma SliceStep<T>(done: seq<T>, a: seq<T>, i: nat, x: T, rest: seq<T>, all: seq<T>)
    requires i < |done| == |a| && done[i..] == a[i..] && done[..i] + ([x] + rest) == all
    ensures done[i := x][..i + 1] + rest == all && done[i := x][i + 1..] == a[i + 1..]
  {
    assert done[i := x][..i + 1] == done[..i] + [x];
    assert done[i := x][i + 1..] == done[i..][1..] && a[i..][1..] == a[i + 1..];
  }

  lemma ItemsWalkStep(done: seq<Item>, a: seq<Item>, b: seq<Json>, i: nat, cs: bool, h: nat)
    requires (a == [] || ItemsHeight(EraseItems(a)) < h) && ItemsWalk(done, a, b, i, cs, h) && i < |a| && i < |b|
    ensures ItemsWalk(done[i := Walked(a[i], b[i], cs)], a, b, i + 1, cs, h)
  {
    hide Walked, WalkedItems, ItemsHeight;
    ItemsUnfold(a, b, i, cs, h);
    SliceStep(done, a, i, Walked(a[i], b[i], cs), WalkedItems(a[i + 1..], b[i + 1..], cs, h), WalkedItems(a, b, cs, h));
  }

  lemma ItemsWalkEnds(done: seq<Item>, a: seq<Item>, b: seq<Json>, i: nat, cs: bool, h: nat)
    requires (a == [] || ItemsHeight(EraseItems(a)) < h) && ItemsWalk(done, a, b, i, cs, h) && (i == |a| || i == |b|)
    ensures done == WalkedItems(a, b, cs, h)
  {
    hide Walked, ItemsHeight;
    assert a[i..] == [] || b[i..] == [];
    assert WalkedItems(a[i..], b[i..], cs, h) == a[i..];
    assert done == done[..i] + done[i..];
  }

  /**
    create_patches: the patches of `from` to `to` are appended to the list under
    construction, and both trees are left with their compared objects sorted.
   */
  method CreatePatches(patches: seq<Json>, path: Text, from: Item, to: Item, cs: bool)
    returns (r: seq<Json>, left: Item, right: Item)
    ensures r == patches + ComposeAll(Edits(path, Erase(from), Erase(to), cs))
    ensures left == Walked(from, Erase(to), cs) && right == Walked(to, Erase(from), cs)
    decreases Height(Erase(from)), 1
  {
    hide ComposeAll, ArrayEdits, ObjectEdits, WalkedItems, WalkedMembers, Height, SortList, TailSorted;
    left, right := from, to;
    match (from, to) {
      case (ArrayItem(x), ArrayItem(y)) =>
        HeightOfItems(from);
        HeightOfItems(to);
        var l, m;
        r, l, m := CreateArrayPatches(patches, path, x, y, cs, Height(Erase(from)), Height(Erase(to)));
        left, right := ArrayItem(l), ArrayItem(m);
      case (ObjectItem(x, s), ObjectItem(y, t)) =>
        HeightOfMembers(x, s, cs);
        HeightOfMembers(y, t, cs);
        var l, m;
        r, l, m := CreateObjectPatches(patches, path, SortList(x, cs), SortList(y, cs), cs, Height(Erase(from)),
            Height(Erase(to)));
        left, right := ObjectItem(l, TailSorted(x, s, cs)), ObjectItem(m, TailSorted(y, t, cs));
      case _ =>
        LeafEdits(path, from, to, cs);
        r := patches + ComposeAll(Edits(path, Erase(from), Erase(to), cs));
    }
  }

  lemma HeightOfItems(t: Item)
    requires t.ArrayItem?
    ensures t.items == [] || ItemsHeight(EraseItems(t.items)) < Height(Erase(t))
  {
  }

  lemma HeightOfMembers(ms: seq<Member<Item>>, tail: Tail, cs: bool)
    ensures EraseMembers(SortList(ms, cs)) == SortList(EraseMembers(ms), cs)
    ensures ms == [] || MembersHeight(EraseMembers(SortList(ms, cs))) < Height(Erase(ObjectItem(ms, tail)))
    ensures ms == [] ==> SortList(ms, cs) == []
  {
    SortErases(ms, cs);
    SortKeepsHeight(EraseMembers(ms), cs);
  }

  /** Where neither two arrays nor two objects meet, at most one "replace" is made. */
  lemma LeafEdits(path: Text, from: Item, to: Item, cs: bool)
    requires !(from.ArrayItem? && to.ArrayItem?) && !(from.ObjectItem? && to.ObjectItem?)
    ensures Edits(path, Erase(from), Erase(to), cs) == [] ||
            Edits(path, Erase(from), Erase(to), cs) == Replace(path, Erase(to))
    ensures Walked(from, Erase(to), cs) == from && Walked(to, Erase(from), cs) == to
  {
  }

  method CreateArrayPatches(patches: seq<Json>, path: Text, from: seq<Item>, to: seq<Item>, cs: bool, ghost h: nat,
      ghost g: nat)
    returns (r: seq<Json>, left: seq<Item>, right: seq<Item>)
    requires (from == [] || ItemsHeight(EraseItems(from)) < h) && (to == [] || ItemsHeight(EraseItems(to)) < g)
    ensures r == patches + ComposeAll(ArrayEdits(path, EraseItems(from), EraseItems(to), 0, cs, h))
    ensures left == WalkedItems(from, EraseItems(to), cs, h) && right == WalkedItems(to, EraseItems(from), cs, g)
    decreases h, 0
  {
    hide ArrayEdits, Edits, ComposeAll, Compose, Decimal, Pending, ItemsHeight, WalkedItems, Walked, ItemsWalk;
    r, left, right := patches, from, to;
    var f, t := EraseItems(from), EraseItems(to);
    var index := 0;
    assert f[0..] == f && t[0..] == t;
    ItemsWalkStarts(from, t, cs, h);
    ItemsWalkStarts(to, f, cs, g);
    while index < |from| && index < |to|
      invariant 0 <= index <= |from| && index <= |to|
      invariant f[index..] == [] || ItemsHeight(f[index..]) < h
      invariant Pending(r, ArrayEdits(path, f[index..], t[index..], index, cs, h)) ==
                Pending(patches, ArrayEdits(path, f, t, 0, cs, h))
      invariant ItemsWalk(left, from, t, index, cs, h) && ItemsWalk(right, to, f, index, cs, g)
    {
      ArrayStep(path, f, t, index, index, index, cs, h);
      PendingStep(r, Edits(path + "/" + Decimal(index), f[index], t[index], cs),
                  ArrayEdits(path, f[index + 1..], t[index + 1..], index + 1, cs, h));
      ItemBelow(f, index);
      ItemsWalkStep(left, from, t, index, cs, h);
      ItemsWalkStep(right, to, f, index, cs, g);
      var l, m;
      r, l, m := CreatePatches(r, path + "/" + Decimal(index), from[index], to[index], cs);
      WalkLengths(left, from, t, index, cs, h);
      WalkLengths(right, to, f, index, cs, g);
      left, right := left[index := l], right[index := m];
      index := index + 1;
    }
    ItemsWalkEnds(left, from, t, index, cs, h);
    ItemsWalkEnds(right, to, f, index, cs, g);
    r := CreateRest(r, patches, path, f, t, index, cs, h);
  }

  lemma WalkLengths(done: seq<Item>, a: seq<Item>, b: seq<Json>, i: nat, cs: bool, h: nat)
    requires (a == [] || ItemsHeight(EraseItems(a)) < h) && ItemsWalk(done, a, b, i, cs, h)
    ensures |done| == |a|
  {
  }

  /** The leftovers of one array are removed, or those of the other appended. */
  method CreateRest(made: seq<Json>, ghost patches: seq<Json>, path: Text, from: seq<Json>, to: seq<Json>, start: nat,
      cs: bool, ghost h: nat)
    returns (r: seq<Json>)
    requires (from == [] || ItemsHeight(from) < h) && start <= |from| && start <= |to| &&
             (start == |from| || start == |to|)
    requires from[start..] == [] || ItemsHeight(from[start..]) < h
    requires Pending(made, ArrayEdits(path, from[start..], to[start..], start, cs, h)) ==
             Pending(patches, ArrayEdits(path, from, to, 0, cs, h))
    ensures r == patches + ComposeAll(ArrayEdits(path, from, to, 0, cs, h))
  {
    hide ArrayEdits, Edits, ComposeAll, Compose, Decimal, Pending, ItemsHeight;
    r := made;
    var index := start;
    var k := start;
    while k < |from|
      invariant index <= k <= |from| && 0 <= index <= |to| && (k < |from| ==> index == |to|)
      invariant from[k..] == [] || ItemsHeight(from[k..]) < h
      invariant Pending(r, ArrayEdits(path, from[k..], to[index..], index, cs, h)) ==
                Pending(patches, ArrayEdits(path, from, to, 0, cs, h))
    {
      ArrayStep(path, from, to, k, index, index, cs, h);
      PendingOne(r, Edit("remove", path + "/" + Decimal(index), None),
          ArrayEdits(path, from[k + 1..], to[index..], index, cs, h));
      r := r + [Compose(Edit("remove", path + "/" + Decimal(index), None))];
      k := k + 1;
    }
    while index < |to|
      invariant 0 <= index <= |to|
      invariant Pending(r, ArrayEdits(path, from[k..], to[index..], index, cs, h)) ==
                Pending(patches, ArrayEdits(path, from, to, 0, cs, h))
    {
      ArrayStep(path, from, to, k, index, index, cs, h);
      PendingOne(r, Edit("add", path + "/-", Some(to[index])),
          ArrayEdits(path, from[k..], to[index + 1..], index + 1, cs, h));
      r := r + [Compose(Edit("add", path + "/-", Some(to[index])))];
      index := index + 1;
    }
    ArrayStep(path, from, to, k, index, index, cs, h);
    PendingDone(r, patches, ArrayEdits(path, from, to, 0, cs, h));
  }

  /** `done` is walked up to `i` against the members `b` up to `j`; the rest of the walk completes it. */
  ghost predicate MembersWalk(done: seq<Member<Item>>, a: seq<Member<Item>>, b: Members, i: nat, j: nat, cs: bool,
      h: nat)
    requires a == [] || MembersHeight(EraseMembers(a)) < h
  {
    && i <= |a| && j <= |b| && |done| == |a| && done[i..] == a[i..]
    && (a[i..] == [] || MembersHeight(EraseMembers(a[i..])) < h)
    && done[..i] + WalkedMembers(a[i..], b[j..], cs, h) == WalkedMembers(a, b, cs, h)
  }

  lemma MembersWalkStarts(a: seq<Member<Item>>, b: Members, cs: bool, h: nat)
    requires a == [] || MembersHeight(EraseMembers(a)) < h
    ensures MembersWalk(a, a, b, 0, 0, cs, h)
  {
    assert a[0..] == a && b[0..] == b && a[..0] == [];
  }

  /** The walk at two positions, by which list advances. */
  lemma WalkUnfolds(a: seq<Member<Item>>, b: Members, i: nat, j: nat, cs: bool, h: nat)
    requires i < |a| && j <= |b| && (a == [] || MembersHeight(EraseMembers(a)) < h)
    ensures MembersHeight(EraseMembers(a[i..])) < h && (a[i + 1..] == [] || MembersHeight(EraseMembers(a[i + 1..])) < h)
    ensures j < |b| && CompareStrings(a[i].key, b[j].key, cs) == 0 ==>
              WalkedMembers(a[i..], b[j..], cs, h) ==
              [Member(a[i].key, Walked(a[i].value, b[j].value, cs))] + WalkedMembers(a[i + 1..], b[j + 1..], cs, h)
    ensures (j < |b| ==> CompareStrings(a[i].key, b[j].key, cs) < 0) ==>
              WalkedMembers(a[i..], b[j..], cs, h) == [a[i]] + WalkedMembers(a[i + 1..], b[j..], cs, h)
  {
    hide Walked, CompareStrings;
    MemberSliceFits(a, i, h);
    MemberSliceFits(a, i + 1, h);
    assert a[i..][1..] == a[i + 1..];
    if j < |b| {
      assert b[j..][1..] == b[j + 1..];
    }
  }

  /** The step at which both lists advance. */
  lemma BothStep(done: seq<Member<Item>>, a: seq<Member<Item>>, b: Members, i: nat, j: nat, cs: bool, h: nat)
    requires (a == [] || MembersHeight(EraseMembers(a)) < h) && MembersWalk(done, a, b, i, j, cs, h)
    requires i < |a| && j < |b| && CompareStrings(a[i].key, b[j].key, cs) == 0
    ensures MembersWalk(done[i := Member(a[i].key, Walked(a[i].value, b[j].value, cs))], a, b, i + 1, j + 1, cs, h)
  {
    hide Walked, CompareStrings, WalkedMembers, MembersHeight;
    WalkUnfolds(a, b, i, j, cs, h);
    SliceStep(done, a, i, Member(a[i].key, Walked(a[i].value, b[j].value, cs)),
              WalkedMembers(a[i + 1..], b[j + 1..], cs, h), WalkedMembers(a, b, cs, h));
  }

  /** The step at which the walked list advances alone. */
  lemma OwnStep(done: seq<Member<Item>>, a: seq<Member<Item>>, b: Members, i: nat, j: nat, cs: bool, h: nat)
    requires (a == [] || MembersHeight(EraseMembers(a)) < h) && MembersWalk(done, a, b, i, j, cs, h)
    requires i < |a| && (j < |b| ==> CompareStrings(a[i].key, b[j].key, cs) < 0)
    ensures MembersWalk(done, a, b, i + 1, j, cs, h)
  {
    hide Walked, CompareStrings, WalkedMembers, MembersHeight;
    WalkUnfolds(a, b, i, j, cs, h);
    assert done[i] == done[i..][0] == a[i];
    SliceStep(done, a, i, a[i], WalkedMembers(a[i + 1..], b[j..], cs, h), WalkedMembers(a, b, cs, h));
    assert done[i := a[i]] == done;
  }

  /** The step at which the other list advances alone. */
  lemma OtherStep(done: seq<Member<Item>>, a: seq<Member<Item>>, b: Members, i: nat, j: nat, cs: bool, h: nat)
    requires (a == [] || MembersHeight(EraseMembers(a)) < h) && MembersWalk(done, a, b, i, j, cs, h)
    requires j < |b| && (i < |a| ==> CompareStrings(a[i].key, b[j].key, cs) > 0)
    ensures MembersWalk(done, a, b, i, j + 1, cs, h)
  {
    hide Walked, CompareStrings;
    assert b[j..][1..] == b[j + 1..];
  }

  lemma MembersWalkEnds(done: seq<Member<Item>>, a: seq<Member<Item>>, b: Members, cs: bool, h: nat)
    requires (a == [] || MembersHeight(EraseMembers(a)) < h) && MembersWalk(done, a, b, |a|, |b|, cs, h)
    ensures done == WalkedMembers(a, b, cs, h)
  {
    assert done == done[..|a|];
  }

  lemma MemberWalkLengths(done: seq<Member<Item>>, a: seq<Member<Item>>, b: Members, i: nat, j: nat, cs: bool, h: nat)
    requires (a == [] || MembersHeight(EraseMembers(a)) < h) && MembersWalk(done, a, b, i, j, cs, h)
    ensures |done| == |a|
  {
  }

  method CreateObjectPatches(patches: seq<Json>, path: Text, from: seq<Member<Item>>, to: seq<Member<Item>>, cs: bool,
                             ghost h: nat, ghost g: nat)
    returns (r: seq<Json>, left: seq<Member<Item>>, right: seq<Member<Item>>)
    requires from == [] || MembersHeight(EraseMembers(from)) < h
    requires to == [] || MembersHeight(EraseMembers(to)) < g
    ensures r == patches + ComposeAll(ObjectEdits(path, EraseMembers(from), EraseMembers(to), cs, h))
    ensures left == WalkedMembers(from, EraseMembers(to), cs, h) &&
            right == WalkedMembers(to, EraseMembers(from), cs, g)
    decreases h, 0
  {
    hide ObjectEdits, Edits, ComposeAll, Compose, Encode, Pending, MembersHeight, CompareStrings, WalkedMembers,
        Walked, MembersWalk;
    r, left, right := patches, from, to;
    var f, t := EraseMembers(from), EraseMembers(to);
    var i, j := 0, 0;
    assert f[0..] == f && t[0..] == t;
    MembersWalkStarts(from, t, cs, h);
    MembersWalkStarts(to, f, cs, g);
    while i < |f| || j < |t|
      invariant 0 <= i <= |f| && 0 <= j <= |t|
      invariant f[i..] == [] || MembersHeight(f[i..]) < h
      invariant Pending(r, ObjectEdits(path, f[i..], t[j..], cs, h)) == Pending(patches, ObjectEdits(path, f, t, cs, h))
      invariant MembersWalk(left, from, t, i, j, cs, h) && MembersWalk(right, to, f, j, i, cs, g)
      decreases |f| + |t| - i - j
    {
      var diff := Diff(f, t, i, j, cs);
      ObjectStep(path, f, t, i, j, cs, h);
      if i < |f| && j < |t| {
        CompareAntisymmetric(f[i].key, t[j].key, cs);
      }
      if diff == 0 {
        PendingStep(r, Edits(path + "/" + Encode(f[i].key), f[i].value, t[j].value, cs),
                    ObjectEdits(path, f[i + 1..], t[j + 1..], cs, h));
        MemberBelow(f, i);
        BothStep(left, from, t, i, j, cs, h);
        BothStep(right, to, f, j, i, cs, g);
        MemberWalkLengths(left, from, t, i, j, cs, h);
        MemberWalkLengths(right, to, f, j, i, cs, g);
        var l, m;
        r, l, m := CreatePatches(r, path + "/" + Encode(f[i].key), from[i].value, to[j].value, cs);
        left, right := left[i := Member(from[i].key, l)], right[j := Member(to[j].key, m)];
        i, j := i + 1, j + 1;
      } else if diff < 0 {
        PendingOne(r, Edit("remove", path + "/" + Encode(f[i].key), None),
            ObjectEdits(path, f[i + 1..], t[j..], cs, h));
        OwnStep(left, from, t, i, j, cs, h);
        OtherStep(right, to, f, j, i, cs, g);
        r := r + [Compose(Edit("remove", path + "/" + Encode(f[i].key), None))];
        i := i + 1;
      } else {
        PendingOne(r, Edit("add", path + "/" + Encode(t[j].key), Some(t[j].value)),
            ObjectEdits(path, f[i..], t[j + 1..], cs, h));
        OtherStep(left, from, t, i, j, cs, h);
        OwnStep(right, to, f, j, i, cs, g);
        r := r + [Compose(Edit("add", path + "/" + Encode(t[j].key), Some(t[j].value)))];
        j := j + 1;
      }
    }
    MembersWalkEnds(left, from, t, cs, h);
    MembersWalkEnds(right, to, f, cs, g);
    NoObjectEdits(path, f[i..], t[j..], cs, h);
    PendingDone(r, patches, ObjectEdits(path, f, t, cs, h));
  }
}
