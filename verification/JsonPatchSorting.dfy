/**
  What sorting in place can cost: the members that later additions lose because a test, or
  the generation of the patches themselves, has sorted an object of the document.
 */
module JsonPatchSorting {
  import opened Basics
  import opened JsonTree
  import opened JsonSort
  import opened JsonTails
  import opened JsonPointer
  import opened JsonPatch
  import opened JsonItems
  import opened JsonPatchInPlace
  import opened JsonPatchCreate
  import Trip = JsonPatchRoundTrip
  import Exact = JsonPatchExact

  /** Any test of an object with unique keys against an object. */
  lemma TestedTail(ms: seq<Member<Item>>, tail: Tail, y: Members, cs: bool)
    requires UniqueKeys(ms, cs) && Sound(tail, |ms|)
    ensures var t := ComparedItem(ObjectItem(ms, tail), Object(y), cs);
            && t.ObjectItem? && |t.members| == |ms|
            && (forall i :: 0 <= i < |ms| ==> t.members[i].key == SortList(ms, cs)[i].key)
            && (Sound(t.tail, |ms|) <==>
                  ms == [] || (AtMostAll(ms[0].key, ms, cs) && AtLeastAll(ms[|ms| - 1].key, ms, cs)))
  {
    hide SortList, TailSorted;
    var h := Height(Erase(ObjectItem(ms, tail)));
    SortErases(ms, cs);
    SortKeepsHeight(EraseMembers(ms), cs);
    KeysStay(SortList(ms, cs), SortList(y, cs), cs, h);
    SortKeepsTailExactly(ms, tail, cs);
  }

  lemma {:induction false} KeysStay(a: seq<Member<Item>>, b: Members, cs: bool, h: nat)
    requires a == [] || MembersHeight(EraseMembers(a)) < h
    ensures var r := ComparedInObject(a, b, cs, h); |r| == |a| && forall i :: 0 <= i < |a| ==> r[i].key == a[i].key
    decreases |a|
  {
    if a != [] && b != [] && CompareStrings(a[0].key, b[0].key, cs) == 0 {
      ErasedMembersTail(a);
      KeysStay(a[1..], b[1..], cs, h);
    }
  }

  /**
    A test of the whole document, an object with unique keys, followed by the addition of
    a new member: the addition works exactly if the first key of the document is the
    least and its last key the greatest, whatever the test answered.
   */
  lemma TestThenAddExactly(ms: Members, y: Members, k: Text, x: Json, cs: bool)
    requires UniqueKeys(ms, cs) && FindKey(ms, k, cs) == None && Survives(k) && Height(x) <= CIRCULAR_LIMIT
    ensures var tested := ApplyOpInPlace(Fresh(Object(ms)), TEST, "", Some(Object(y)), None, cs);
            && tested.Done?
            && (OpSound(tested.root, ADD, "/" + Encode(k), Some(x), None, cs) <==>
                  ms == [] || (AtMostAll(ms[0].key, ms, cs) && AtLeastAll(ms[|ms| - 1].key, ms, cs)))
  {
    hide SortList, ComparedItem, Encode, Survives, FindKey, ApplyOpInPlace, OpSound, TargetSound, Erase;
    var root := Fresh(Object(ms));
    var items := root.members;
    FreshIsIntact(Object(ms));
    SameMembers(items, ms, root.tail);
    assert UniqueKeys(items, cs);
    TestedTail(items, root.tail, y, cs);
    var t := ComparedItem(root, Object(y), cs);
    WholeTest(root, Object(y), cs);
    NewKeyStaysNew(items, t.members, k, cs);
    KeyTarget(t, k, cs);
    AddSound(t, "/" + Encode(k), x, cs);
    SameEnds(items, ms, cs);
  }

  lemma SameMembers(items: seq<Member<Item>>, ms: Members, tail: Tail)
    requires Erase(ObjectItem(items, tail)) == Object(ms)
    ensures EraseMembers(items) == ms && |items| == |ms|
    ensures forall i :: 0 <= i < |ms| ==> items[i].key == ms[i].key
  {
  }

  /** A test of the whole document. */
  lemma WholeTest(root: Item, v: Json, cs: bool)
    ensures ApplyOpInPlace(root, TEST, "", Some(v), None, cs) ==
            Done(if CompareJson(Erase(root), v, cs) then 0 else 1, ComparedItem(root, v, cs))
  {
    hide CompareJson, ComparedItem, Erase;
    assert Locate(Erase(root), "", cs) == Some([]);
  }

  lemma AddSound(t: Item, path: Text, x: Json, cs: bool)
    requires path != "" && Height(x) <= CIRCULAR_LIMIT
    ensures OpSound(t, ADD, path, Some(x), None, cs) <==> TargetSound(t, path, cs)
  {
    hide TargetSound, Duplicate;
    DuplicateIsIdentity(x);
  }

  lemma SameEnds(items: seq<Member<Item>>, ms: Members, cs: bool)
    requires |items| == |ms| && forall i :: 0 <= i < |ms| ==> items[i].key == ms[i].key
    ensures ms != [] ==> AtMostAll(items[0].key, items, cs) == AtMostAll(ms[0].key, ms, cs)
    ensures ms != [] ==> AtLeastAll(items[|ms| - 1].key, items, cs) == AtLeastAll(ms[|ms| - 1].key, ms, cs)
  {
  }

  lemma NewKeyStaysNew(ms: seq<Member<Item>>, r: seq<Member<Item>>, k: Text, cs: bool)
    requires FindKey(EraseMembers(ms), k, cs) == None
    requires |r| == |ms| && forall i :: 0 <= i < |ms| ==> r[i].key == SortList(ms, cs)[i].key
    ensures FindKey(r, k, cs) == None
  {
    hide SortList;
    SortPermutes(ms, cs);
    forall i | 0 <= i < |r| ensures !SameKey(r[i].key, k, cs) {
      assert SortList(ms, cs)[i] in multiset(ms);
      var j :| 0 <= j < |ms| && ms[j] == SortList(ms, cs)[i];
      assert EraseMembers(ms)[j].key == r[i].key;
    }
  }

  lemma KeyTarget(t: Item, k: Text, cs: bool)
    requires Survives(k) && t.ObjectItem? && FindKey(t.members, k, cs) == None
    ensures TargetSound(t, "/" + Encode(k), cs) <==> Sound(t.tail, |t.members|)
  {
    hide Encode, Survives, DecodeInPlace;
    EncodeHasNoSlash(k);
    DecodeUndoesEncode(k);
    Trip.SplitLastToken(Encode(k));
  }

  /** The patch list of a test of the whole document and an addition to it. */
  function TestThenAdd(y: Members, k: Text, x: Json): seq<Json> {
    [Compose(Edit("test", "", Some(Object(y)))), Compose(Edit("add", "/" + Encode(k), Some(x)))]
  }

  lemma TestAndAddNames()
    ensures OpcodeOf("test") == TEST && OpcodeOf("add") == ADD
  {
    assert "test" != "add" && "test" != "remove" && "test" != "replace" && "test" != "move" && "test" != "copy" by {
      assert |"test"| == 4 && |"add"| == 3 && |"remove"| == 6 && |"replace"| == 7;
      assert "test"[0] == 't' && "move"[0] == 'm' && "copy"[0] == 'c';
    }
  }

  lemma ComposedApplies(root: Item, e: Edit)
    requires Trip.Writable(e)
    ensures ApplyInPlace(root, Compose(e), true) == ApplyOpInPlace(root, OpcodeOf(e.op), e.path, e.value, None, true)
  {
    hide Compose, ItemOf, ApplyOpInPlace;
    Trip.ComposedItems(e);
  }

  /** The run of a test that succeeds and an addition of a new key. */
  lemma RunTestThenAdd(ms: Members, y: Members, k: Text, x: Json)
    requires CompareJson(Object(ms), Object(y), true) && Height(Object(y)) <= CIRCULAR_LIMIT
    requires FindKey(ms, k, true) == None && Survives(k) && Height(x) <= CIRCULAR_LIMIT
    ensures var t := ComparedItem(Fresh(Object(ms)), Object(y), true);
            t.ObjectItem? && RunInPlace(Fresh(Object(ms)), TestThenAdd(y, k, x), true) ==
            Done(0, ObjectItem(Appended(t.members, t.tail, Member(k, Fresh(x))), TailAppended(t.tail, |t.members|)))
  {
    hide Compose, CompareJson, ComparedItem, Duplicate, Encode, Survives, FindKey, ApplyInPlace, DecodeInPlace,
        SortList, TailSorted;
    var root := Fresh(Object(ms));
    var patches := TestThenAdd(y, k, x);
    var t := ComparedItem(root, Object(y), true);
    FreshIsIntact(Object(ms));
    FreshIsIntact(x);
    assert EraseMembers(root.members) == ms;
    TestAndAddNames();
    ComposedApplies(root, Edit("test", "", Some(Object(y))));
    ComposedApplies(t, Edit("add", "/" + Encode(k), Some(x)));
    assert Locate(Object(ms), "", true) == Some([]);
    TestedMembers(root.members, root.tail, y, k);
    DuplicateIsIdentity(x);
    EncodeHasNoSlash(k);
    DecodeUndoesEncode(k);
    Trip.SplitLastToken(Encode(k));
    assert Locate(Erase(t), "", true) == Some([]);
    assert ApplyInPlace(root, patches[0], true) == Done(0, t);
    assert AddItem(t, "/" + Encode(k), Fresh(x), true) == AddTo(t, k, Fresh(x), true);
    assert AddCopy(t, "/" + Encode(k), Some(x), true) == AddTo(t, k, Fresh(x), true);
    assert ApplyInPlace(t, patches[1], true) == AddTo(t, k, Fresh(x), true);
    assert patches[1..] == [patches[1]] && patches[1..][1..] == [];
    var m := AddTo(t, k, Fresh(x), true);
    assert m.Done? && m.status == 0 && RunInPlace(m.root, [], true) == m;
    OnePatch(t, patches[1], true);
  }

  lemma TestedMembers(ms: seq<Member<Item>>, tail: Tail, y: Members, k: Text)
    requires FindKey(EraseMembers(ms), k, true) == None && !tail.Astray?
    ensures var t := ComparedItem(ObjectItem(ms, tail), Object(y), true);
            t.ObjectItem? && |t.members| == |ms| && !t.tail.Astray? && FindKey(t.members, k, true) == None
  {
    hide SortList, CompareJson;
    var h := Height(Erase(ObjectItem(ms, tail)));
    SortErases(ms, true);
    SortKeepsHeight(EraseMembers(ms), true);
    KeysStay(SortList(ms, true), SortList(y, true), true, h);
    NewKeyStaysNew(ms, ComparedItem(ObjectItem(ms, tail), Object(y), true).members, k, true);
  }

  /** Sorting two members that stand in the wrong order. */
  lemma SortTwo<T>(a: T, b: T)
    ensures SortList([Member("b", b), Member("a", a)], true) == [Member("a", a), Member("b", b)]
    ensures TailSorted([Member("b", b), Member("a", a)], Points(1), true) == Lost
  {
    assert "a"[1..] == [] && "b"[1..] == [];
    SwapTwo(a, b);
    SwapTwo<nat>(1, 0);
    assert Tagged([Member("b", b), Member("a", a)]) == [Member("b", 0), Member("a", 1)];
  }

  lemma SwapTwo<T>(a: T, b: T)
    ensures SortList([Member("b", b), Member("a", a)], true) == [Member("a", a), Member("b", b)]
  {
    var s := [Member("b", b), Member("a", a)];
    assert !Less("b", "a", true) && !Less(s[0].key, s[1].key, true);
    assert s[..1] == [s[0]] && s[1..] == [s[1]];
    assert Merge([s[0]], [s[1]], true) == [s[1], s[0]] by {
      assert [s[1]][1..] == [];
    }
  }

  /** Every member is a string or a literal. */
  predicate Flat(ms: seq<Member<Item>>) {
    forall i :: 0 <= i < |ms| ==>
      ms[i].value.TrueItem? || ms[i].value.FalseItem? || ms[i].value.NullItem? || ms[i].value.StringItem?
  }

  lemma {:induction false} FlatMembersCompared(s: seq<Member<Item>>, h: nat)
    requires Flat(s) && (s == [] || MembersHeight(EraseMembers(s)) < h)
    ensures ComparedInObject(s, EraseMembers(s), true, h) == s
    ensures CompareMembers(EraseMembers(s), EraseMembers(s), true, h)
    decreases |s|
  {
    if s != [] {
      ErasedMembersTail(s);
      CompareZeroIsSameKey(s[0].key, s[0].key, true);
      FlatMembersCompared(s[1..], h);
    }
  }

  /** A flat object tested against its own value is sorted, and the test succeeds. */
  lemma FlatCompared(ms: seq<Member<Item>>, tail: Tail)
    requires Flat(ms)
    ensures ComparedItem(ObjectItem(ms, tail), Object(EraseMembers(ms)), true) ==
            ObjectItem(SortList(ms, true), TailSorted(ms, tail, true))
    ensures CompareJson(Object(EraseMembers(ms)), Object(EraseMembers(ms)), true)
  {
    hide TailSorted;
    var s := SortList(ms, true);
    SortErases(ms, true);
    SortKeepsHeight(EraseMembers(ms), true);
    SortPermutes(ms, true);
    forall i | 0 <= i < |s|
      ensures s[i].value.TrueItem? || s[i].value.FalseItem? || s[i].value.NullItem? || s[i].value.StringItem?
    {
      assert s[i] in multiset(ms);
      var j :| 0 <= j < |ms| && ms[j] == s[i];
    }
    FlatMembersCompared(s, Height(Object(EraseMembers(ms))));
  }

  lemma FreshMembers(ms: Members, items: seq<Member<Item>>)
    requires |items| == |ms| && forall i :: 0 <= i < |ms| ==> items[i] == Member(ms[i].key, Fresh(ms[i].value))
    ensures Fresh(Object(ms)) == ObjectItem(items, if ms == [] then Lost else Points(|ms| - 1))
  {
    assert Fresh(Object(ms)).members == items;
  }

  /** A test of a flat document against its own value, then an addition. */
  lemma FlatRun(items: seq<Member<Item>>, k: Text, x: Json)
    requires Flat(items) && items != [] && FindKey(items, k, true) == None && Survives(k) && Height(x) <= CIRCULAR_LIMIT
    ensures var s, t := SortList(items, true), TailSorted(items, Points(|items| - 1), true);
            RunInPlace(ObjectItem(items, Points(|items| - 1)), TestThenAdd(EraseMembers(items), k, x), true) ==
            Done(0, ObjectItem(Appended(s, t, Member(k, Fresh(x))), TailAppended(t, |s|)))
  {
    hide SortList, TailSorted, ComparedItem, CompareJson, Survives, RunInPlace, TestThenAdd;
    var ms := EraseMembers(items);
    FlatHeight(items);
    FindErases(items, k, true);
    forall i | 0 <= i < |ms| ensures items[i] == Member(ms[i].key, Fresh(ms[i].value)) {
    }
    FreshMembers(ms, items);
    FlatCompared(items, Points(|items| - 1));
    RunTestThenAdd(ms, ms, k, x);
  }

  lemma FlatHeight(items: seq<Member<Item>>)
    requires Flat(items)
    ensures Height(Object(EraseMembers(items))) <= 1
  {
    MembersHeightBound(EraseMembers(items), 0);
  }

  /**
    The document {"b": true, "a": null}, a test against an equal value, and the addition
    of "c": the list reports success, and the document has no "c".
   */
  lemma AddedMemberIsLost(x: Json)
    requires Height(x) <= CIRCULAR_LIMIT
    ensures var ms := [Member("b", True), Member("a", Json.Null)];
            var m := RunInPlace(Fresh(Object(ms)), TestThenAdd(ms, "c", x), true);
            m.Done? && m.status == 0 && Erase(m.root) == Object([Member("a", Json.Null), Member("b", True)])
  {
    hide SortList, RunInPlace, TailSorted, TestThenAdd;
    var ms := [Member("b", True), Member("a", Json.Null)];
    var items := [Member("b", TrueItem), Member("a", NullItem)];
    FreshMembers(ms, items);
    SortTwo(NullItem, TrueItem);
    PlainKeysSurvive("c");
    NewKey(items, "c");
    assert EraseMembers(items) == ms;
    FlatRun(items, "c", x);
    assert EraseMembers([Member("a", NullItem), Member("b", TrueItem)]) == [Member("a", Json.Null), Member("b", True)];
  }

  lemma NewKey(items: seq<Member<Item>>, k: Text)
    requires forall i :: 0 <= i < |items| ==> items[i].key != k
    ensures FindKey(items, k, true) == None
  {
  }

  /**
    The document {"a": true, "c": true, "b": true}, a test against an equal value, and the
    addition of "d": the list reports success, and the document has lost its "c".
   */
  lemma OldMemberIsLost(x: Json)
    requires Height(x) <= CIRCULAR_LIMIT
    ensures var ms := [Member("a", True), Member("c", True), Member("b", True)];
            var m := RunInPlace(Fresh(Object(ms)), TestThenAdd(ms, "d", x), true);
            m.Done? && m.status == 0 && Erase(m.root) == Object([Member("a", True), Member("b", True), Member("d", x)])
  {
    hide SortList, RunInPlace, TailSorted, TestThenAdd, Appended;
    var ms := [Member("a", True), Member("c", True), Member("b", True)];
    var items := [Member("a", TrueItem), Member("c", TrueItem), Member("b", TrueItem)];
    FreshMembers(ms, items);
    PlainKeysSurvive("d");
    NewKey(items, "d");
    assert EraseMembers(items) == ms;
    FlatRun(items, "d", x);
    StaleTailCutsAMember(TrueItem, TrueItem, TrueItem, Member("d", Fresh(x)));
    FreshIsIntact(x);
    var r := [Member("a", TrueItem), Member("b", TrueItem), Member("d", Fresh(x))];
    assert EraseMembers(r) == [Member("a", True), Member("b", True), Member("d", x)];
  }

  // ---------------------------------------------------------------- generated patches

  /** The operations that the generator writes; none is a test. */
  lemma GeneratedIsNoTest(e: Edit)
    requires Trip.Generated(e)
    ensures PatchOp(Compose(e), true) != TEST
  {
    hide Compose, ItemOf;
    Trip.ComposedItems(e);
    TestAndAddNames();
    assert OpcodeOf("remove") != TEST && OpcodeOf("replace") != TEST && OpcodeOf("add") != TEST by {
      assert |"test"| == 4 && |"remove"| == 6 && |"replace"| == 7;
    }
  }

  lemma {:induction false} ComposedAt(es: seq<Edit>, i: nat)
    requires i < |es|
    ensures ComposeAll(es)[i] == Compose(es[i])
  {
    if i > 0 {
      ComposedAt(es[1..], i - 1);
    }
  }

  /**
    The patch round trip on the lists in memory: generated patches applied in place to a
    fresh copy of the first tree give the second.
   */
  lemma RoundTripInMemory(from: Json, to: Json)
    requires Trip.Editable(from, to) && IntNumbers(from) && IntNumbers(to) && Height(to) <= CIRCULAR_LIMIT
    ensures var m := RunInPlace(Fresh(from), GeneratePatches(from, to, true).items, true);
            m.Done? && m.status == 0 && Abs(Erase(m.root)) == Abs(to)
  {
    hide Edits, ComposeAll, Compose, PatchOp, RunInPlace, ApplySeq, Trip.Editable;
    var es := Edits("", from, to, true);
    Trip.EditsShape("", from, to);
    forall i | 0 <= i < |es| ensures PatchOp(ComposeAll(es)[i], true) != TEST {
      ComposedAt(es, i);
      GeneratedIsNoTest(es[i]);
    }
    FreshIsIntact(from);
    RunWithoutTests(Fresh(from), ComposeAll(es), true);
    Trip.PatchRoundTrip(from, to);
  }

  lemma {:induction false} WalkedKeysStay(a: seq<Member<Item>>, b: Members, cs: bool, h: nat)
    requires a == [] || MembersHeight(EraseMembers(a)) < h
    ensures var r := WalkedMembers(a, b, cs, h); |r| == |a| && forall i :: 0 <= i < |a| ==> r[i].key == a[i].key
    decreases |a| + |b|
  {
    hide CompareStrings, Walked;
    if a != [] && b != [] {
      ErasedMembersTail(a);
      WalkedKeysStay(a[1..], b[1..], cs, h);
      WalkedKeysStay(a[1..], b, cs, h);
      WalkedKeysStay(a, b[1..], cs, h);
    }
  }

  /**
    The patch that adds a new member, applied to the very object it was generated from
    instead of a copy: it adds the member exactly if the first key of the object is the
    least and its last key the greatest, because the generator has sorted the object.
   */
  lemma OwnSourceExactly(ms: Members, k: Text, x: Json)
    requires UniqueKeys(ms, true) && k !in KeySet(ms) && Survives(k) && Height(x) <= CIRCULAR_LIMIT
    ensures var to := Object(ms + [Member(k, x)]);
            var sorted := Walked(Fresh(Object(ms)), to, true);
            RunSound(sorted, GeneratePatches(Object(ms), to, true).items, true) <==>
            ms == [] || (AtMostAll(ms[0].key, ms, true) && AtLeastAll(ms[|ms| - 1].key, ms, true))
  {
    hide SortList, Edits, Compose, ItemOf, Encode, Survives, Duplicate, WalkedMembers, TailSorted, ApplyInPlace,
        FindKey;
    var e := Edit("add", "/" + Encode(k), Some(x));
    var y := ms + [Member(k, x)];
    var root := Fresh(Object(ms));
    var items := root.members;
    var sorted := Walked(root, Object(y), true);
    FreshIsIntact(Object(ms));
    assert EraseMembers(items) == ms;
    Exact.AdditionEdits(ms, k, x);
    var h := Height(Erase(root));
    SortErases(items, true);
    SortKeepsHeight(ms, true);
    WalkedKeysStay(SortList(items, true), SortList(y, true), true, h);
    AbsentKey(ms, k);
    NewKeyStaysNew(items, sorted.members, k, true);
    SortKeepsTailExactly(items, root.tail, true);
    SameEnds(items, ms, true);
    KeyTarget(sorted, k, true);
    OneAddition(sorted, e);
    DuplicateIsIdentity(x);
  }

  lemma AbsentKey(ms: Members, k: Text)
    requires k !in KeySet(ms)
    ensures FindKey(ms, k, true) == None
  {
    assert forall i :: 0 <= i < |ms| ==> ms[i].key in KeySet(ms);
  }

  lemma OneAddition(root: Item, e: Edit)
    requires e.op == "add" && e.value.Some? && e.path != "" && Height(e.value.value) <= CIRCULAR_LIMIT
    ensures RunSound(root, ComposeAll([e]), true) <==> TargetSound(root, e.path, true)
  {
    hide Compose, ItemOf, ApplyInPlace, TargetSound, Duplicate;
    var ps := ComposeAll([e]);
    assert [e][1..] == [] && ps == [Compose(e)];
    Trip.ComposedItems(e);
    TestAndAddNames();
    DuplicateIsIdentity(e.value.value);
    assert ps[1..] == [];
  }
}
