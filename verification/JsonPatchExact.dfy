/**
  Exactly when the patches generated for one changed member lead to the changed object:
  whether a key survives the decoding, and whether a key has an earlier variant, is what
  the round trip turns on, and both can be read off the keys.
 */
module JsonPatchExact {
  import opened Basics
  import opened Decimals
  import opened JsonTree
  import opened JsonObjects
  import opened JsonSort
  import opened JsonPointer
  import opened JsonPatch
  import opened JsonPatchRoundTrip
  import opened JsonPatchLaws

  // ---------------------------------------------------------------- the edits of one change

  lemma SameNumberReflexive(x: real)
    ensures SameNumber(x, x)
  {
    assert Fabs(x) * DBL_EPSILON >= 0.0;
  }

  /** No edits are made from a tree to itself. */
  lemma {:induction false} NoEdits(p: Text, v: Json)
    ensures Edits(p, v, v, true) == []
    decreases Height(v), 1
  {
    match v
    case Number(x) => SameNumberReflexive(x);
    case Array(x) => NoArrayEdits(p, x, 0, Height(v));
    case Object(x) =>
      SortKeepsHeight(x, true);
      NoMemberEdits(p, SortList(x, true), Height(v));
    case _ =>
  }

  lemma {:induction false} NoArrayEdits(p: Text, s: seq<Json>, index: nat, h: nat)
    requires s == [] || ItemsHeight(s) < h
    ensures ArrayEdits(p, s, s, index, true, h) == []
    decreases h, 0, |s|
  {
    if s != [] {
      NoEdits(p + "/" + Decimal(index), s[0]);
      NoArrayEdits(p, s[1..], index + 1, h);
    }
  }

  lemma {:induction false} NoMemberEdits(p: Text, s: Members, h: nat)
    requires s == [] || MembersHeight(s) < h
    ensures ObjectEdits(p, s, s, true, h) == []
    decreases h, 0, |s|
  {
    if s != [] {
      CompareZeroIsSameKey(s[0].key, s[0].key, true);
      NoEdits(p + "/" + Encode(s[0].key), s[0].value);
      NoMemberEdits(p, s[1..], h);
    }
  }

  lemma {:induction false} OneRemoved(s: Members, i: nat, h: nat)
    requires Ascending(s, true) && i < |s| && MembersHeight(s) < h
    ensures ObjectEdits("", s, RemoveAt(s, i), true, h) == [Edit("remove", "/" + Encode(s[i].key), None)]
    decreases |s|
  {
    hide Encode, Edits;
    var t := RemoveAt(s, i);
    assert "" + "/" + Encode(s[i].key) == "/" + Encode(s[i].key);
    if i == 0 {
      assert t == s[1..];
      NoMemberEdits("", s[1..], h);
    } else {
      assert t[0] == s[0] && t[1..] == RemoveAt(s[1..], i - 1);
      CompareZeroIsSameKey(s[0].key, s[0].key, true);
      NoEdits("" + "/" + Encode(s[0].key), s[0].value);
      OneRemoved(s[1..], i - 1, h);
    }
  }

  lemma {:induction false} OneAdded(s: Members, i: nat, h: nat)
    requires Ascending(s, true) && i < |s| && (RemoveAt(s, i) == [] || MembersHeight(RemoveAt(s, i)) < h)
    ensures ObjectEdits("", RemoveAt(s, i), s, true, h) == [Edit("add", "/" + Encode(s[i].key), Some(s[i].value))]
    decreases |s|
  {
    hide Encode, Edits;
    var t := RemoveAt(s, i);
    assert "" + "/" + Encode(s[i].key) == "/" + Encode(s[i].key);
    if i == 0 {
      assert t == s[1..];
      if t != [] {
        CompareAntisymmetric(s[0].key, t[0].key, true);
      }
      NoMemberEdits("", s[1..], h);
    } else {
      assert t[0] == s[0] && t[1..] == RemoveAt(s[1..], i - 1);
      CompareZeroIsSameKey(s[0].key, s[0].key, true);
      NoEdits("" + "/" + Encode(s[0].key), s[0].value);
      OneAdded(s[1..], i - 1, h);
    }
  }

  lemma {:induction false} OneChanged(s: Members, i: nat, x: Json, h: nat)
    requires i < |s| && MembersHeight(s) < h
    ensures ObjectEdits("", s, s[i := Member(s[i].key, x)], true, h) ==
            Edits("/" + Encode(s[i].key), s[i].value, x, true)
    decreases |s|
  {
    hide Encode, Edits;
    var t := s[i := Member(s[i].key, x)];
    assert "" + "/" + Encode(s[i].key) == "/" + Encode(s[i].key);
    CompareZeroIsSameKey(s[0].key, s[0].key, true);
    if i == 0 {
      assert t[1..] == s[1..];
      NoMemberEdits("", s[1..], h);
    } else {
      assert t[0] == s[0] && t[1..] == s[1..][i - 1 := Member(s[i].key, x)];
      NoEdits("" + "/" + Encode(s[0].key), s[0].value);
      OneChanged(s[1..], i - 1, x, h);
    }
  }

  // ---------------------------------------------------------------- sorting one change

  lemma RemovalMultiset(s: Members, i: nat)
    requires i < |s|
    ensures multiset(RemoveAt(s, i)) == multiset(s) - multiset{s[i]}
  {
    assert s == s[..i] + [s[i]] + s[i + 1..];
  }

  lemma RemovalAscends(s: Members, i: nat)
    requires i < |s| && Ascending(s, true)
    ensures Ascending(RemoveAt(s, i), true)
  {
  }

  /** Sorting commutes with taking a member out. */
  lemma SortedRemoval(ms: Members, i: nat) returns (q: nat)
    requires UniqueKeys(ms, true) && i < |ms|
    ensures q < |ms| && SortList(ms, true)[q] == ms[i]
    ensures SortList(RemoveAt(ms, i), true) == RemoveAt(SortList(ms, true), q)
  {
    hide SortList;
    q := ToSorted(ms, i);
    var s, t := SortList(ms, true), SortList(RemoveAt(ms, i), true);
    SortPermutes(ms, true);
    SortPermutes(RemoveAt(ms, i), true);
    SortAscends(ms, true);
    UniqueRemoval(ms, i);
    SortAscends(RemoveAt(ms, i), true);
    RemovalMultiset(ms, i);
    RemovalMultiset(s, q);
    RemovalAscends(s, q);
    AscendingIsUnique(t, RemoveAt(s, q), true);
  }

  /** Sorting commutes with changing the value of a member. */
  lemma SortedUpdate(ms: Members, i: nat, x: Json) returns (q: nat)
    requires UniqueKeys(ms, true) && i < |ms|
    ensures q < |ms| && SortList(ms, true)[q] == ms[i]
    ensures SortList(ms[i := Member(ms[i].key, x)], true) == SortList(ms, true)[q := Member(ms[i].key, x)]
  {
    hide SortList;
    q := ToSorted(ms, i);
    var m := Member(ms[i].key, x);
    var s := SortList(ms, true);
    SortPermutes(ms, true);
    SortPermutes(ms[i := m], true);
    SortAscends(ms, true);
    SortAscends(ms[i := m], true);
    assert multiset(ms[i := m]) == multiset(ms) - multiset{ms[i]} + multiset{m};
    assert multiset(s[q := m]) == multiset(s) - multiset{s[q]} + multiset{m};
    assert Ascending(s[q := m], true);
    AscendingIsUnique(SortList(ms[i := m], true), s[q := m], true);
  }

  // ---------------------------------------------------------------- the patches of one change

  lemma OneEdit(from: Json, e: Edit)
    requires Writable(e)
    ensures ApplySeq(from, ComposeAll([e]), true) == ApplyEdit(from, e)
  {
    hide ApplyEdit;
    ApplyComposedAll(from, [e]);
    assert [e][1..] == [];
    var a := ApplyEdit(from, e);
    assert a.status == 0 ==> ApplyEdits(a.root, []) == a;
  }

  /** The patches generated from one tree to another, applied to the first, succeed and give the second. */
  predicate TripSucceeds(from: Json, to: Json) {
    var a := ApplySeq(from, GeneratePatches(from, to, true).items, true);
    a.status == 0 && Abs(a.root) == Abs(to)
  }

  lemma OtherKeys(a: Members, b: Members, k: Text)
    requires k in KeySet(a) && k !in KeySet(b)
    ensures AbsMembers(a) != AbsMembers(b)
  {
    AbsMembersKeys(a);
    AbsMembersKeys(b);
  }

  lemma HasKey(s: Members, i: nat)
    requires i < |s|
    ensures s[i].key in KeySet(s)
  {
  }

  lemma RemovalTrip(ms: Members, i: nat)
    requires UniqueKeys(ms, true) && i < |ms|
    ensures TripSucceeds(Object(ms), Object(RemoveAt(ms, i))) <==>
            var a := ApplyEdit(Object(ms), Edit("remove", "/" + Encode(ms[i].key), None));
            a.status == 0 && Abs(a.root) == Abs(Object(RemoveAt(ms, i)))
  {
    hide Encode, ApplyEdit, ApplySeq, SortList, Abs, ObjectEdits;
    var q := SortedRemoval(ms, i);
    var e := Edit("remove", "/" + Encode(ms[i].key), None);
    SortKeepsHeight(ms, true);
    SortAscends(ms, true);
    OneRemoved(SortList(ms, true), q, Height(Object(ms)));
    OneEdit(Object(ms), e);
  }

  /**
    Taking any member out of an object with distinct keys by the generated patch works if
    and only if its key survives the decoding and no earlier key equals it modulo case.
   */
  lemma RemovalExact(ms: Members, i: nat)
    requires UniqueKeys(ms, true) && i < |ms|
    ensures TripSucceeds(Object(ms), Object(RemoveAt(ms, i))) <==> Named(ms, i)
  {
    hide Encode, DecodeInPlace, Survives, DetachPath, AddPath, FindKey, Abs, Named, AbsMembers, KeySet, TripSucceeds;
    var v, k := Object(ms), ms[i].key;
    RemovalTrip(ms, i);
    EncodeHasNoSlash(k);
    DirectPath(v, Encode(k), Json.Null);
    TokenFinds(ms, i);
    var f := FindKey(ms, DecodeInPlace(Encode(k)), false);
    if f.Some? && f.value != i {
      var j := f.value;
      UniqueRemoval(ms, i);
      var q := if i < j then i else i - 1;
      assert RemoveAt(ms, j)[q] == ms[i];
      HasKey(RemoveAt(ms, j), q);
      OtherKeys(RemoveAt(ms, j), RemoveAt(ms, i), k);
      ObjectsDiffer(RemoveAt(ms, j), RemoveAt(ms, i));
    }
  }

  lemma ObjectsDiffer(a: Members, b: Members)
    ensures Abs(Object(a)) == Abs(Object(b)) <==> AbsMembers(a) == AbsMembers(b)
  {
  }

  /** The one edit that adds a new member. */
  lemma AdditionEdits(ms: Members, k: Text, x: Json)
    requires UniqueKeys(ms, true) && k !in KeySet(ms)
    ensures Edits("", Object(ms), Object(ms + [Member(k, x)]), true) == [Edit("add", "/" + Encode(k), Some(x))]
  {
    hide Encode, SortList, ObjectEdits;
    var to := ms + [Member(k, x)];
    AppendUnique(ms, Member(k, x));
    var q := SortedRemoval(to, |ms|);
    assert RemoveAt(to, |ms|) == ms;
    SortKeepsHeight(ms, true);
    SortAscends(to, true);
    OneAdded(SortList(to, true), q, Height(Object(ms)));
  }

  lemma AdditionTrip(ms: Members, k: Text, x: Json)
    requires UniqueKeys(ms, true) && k !in KeySet(ms) && Height(x) <= CIRCULAR_LIMIT
    ensures TripSucceeds(Object(ms), Object(ms + [Member(k, x)])) <==>
            var a := ApplyEdit(Object(ms), Edit("add", "/" + Encode(k), Some(x)));
            a.status == 0 && Abs(a.root) == Abs(Object(ms + [Member(k, x)]))
  {
    hide Encode, ApplyEdit, ApplySeq, Abs, Edits;
    AdditionEdits(ms, k, x);
    OneEdit(Object(ms), Edit("add", "/" + Encode(k), Some(x)));
  }

  /** Adding a new member by the generated patch works if and only if its key survives the decoding. */
  lemma AdditionExact(ms: Members, k: Text, x: Json)
    requires UniqueKeys(ms, true) && k !in KeySet(ms) && Height(x) <= CIRCULAR_LIMIT
    ensures TripSucceeds(Object(ms), Object(ms + [Member(k, x)])) <==> Survives(k)
  {
    hide Encode, DecodeInPlace, Survives, DetachPath, AddPath, Abs, AbsMembers, Duplicate, TripSucceeds;
    AdditionTrip(ms, k, x);
    EncodeHasNoSlash(k);
    var d := DecodeInPlace(Encode(k));
    DirectPath(Object(ms), Encode(k), x);
    DuplicateIsIdentity(x);
    DecodeUndoesEncode(k);
    var r, to := WithMember(ms, d, x), ms + [Member(k, x)];
    NewMember(ms, k, x);
    if d != k {
      assert to[|ms|].key == k;
      OtherKeyAdded(ms, d, k, x);
      OtherKeys(to, r, k);
      ObjectsDiffer(to, r);
    }
  }

  lemma NewMember(ms: Members, k: Text, x: Json)
    requires k !in KeySet(ms)
    ensures WithMember(ms, k, x) == ms + [Member(k, x)]
  {
    assert forall i :: 0 <= i < |ms| ==> ms[i].key in KeySet(ms);
    assert FindKey(ms, k, true) == None;
  }

  lemma OtherKeyAdded(ms: Members, d: Text, k: Text, x: Json)
    requires d != k && k !in KeySet(ms)
    ensures k !in KeySet(WithMember(ms, d, x))
  {
    var f := FindKey(ms, d, true);
    var r := WithMember(ms, d, x);
    forall i | 0 <= i < |r| ensures r[i].key != k {
      assert i < |r| - 1 ==> r[i] == if f.Some? then ms[if i < f.value then i else i + 1] else ms[i];
      assert forall j :: 0 <= j < |ms| ==> ms[j].key in KeySet(ms);
    }
  }

  lemma ReplacementTrip(ms: Members, i: nat, x: Json)
    requires UniqueKeys(ms, true) && i < |ms| && Height(x) <= CIRCULAR_LIMIT
    requires !SameContainer(ms[i].value, x) && Differs(ms[i].value, x)
    ensures TripSucceeds(Object(ms), Object(ms[i := Member(ms[i].key, x)])) <==>
            var a := ApplyEdit(Object(ms), Edit("replace", "/" + Encode(ms[i].key), Some(x)));
            a.status == 0 && Abs(a.root) == Abs(Object(ms[i := Member(ms[i].key, x)]))
  {
    hide Encode, ApplyEdit, ApplySeq, SortList, Abs, ObjectEdits, Edits;
    var q := SortedUpdate(ms, i, x);
    var to := Object(ms[i := Member(ms[i].key, x)]);
    var e := Edit("replace", "/" + Encode(ms[i].key), Some(x));
    SortKeepsHeight(ms, true);
    OneChanged(SortList(ms, true), q, x, Height(Object(ms)));
    ReplacingEdit("/" + Encode(ms[i].key), ms[i].value, x);
    EditsOfObjects(ms, to.members);
    OneEdit(Object(ms), e);
  }

  lemma EditsOfObjects(x: Members, y: Members)
    ensures MembersHeight(SortList(x, true)) <= MembersHeight(x)
    ensures Edits("", Object(x), Object(y), true) ==
            ObjectEdits("", SortList(x, true), SortList(y, true), true, Height(Object(x)))
  {
    SortKeepsHeight(x, true);
  }

  lemma ReplacingEdit(p: Text, a: Json, b: Json)
    requires !SameContainer(a, b) && Differs(a, b)
    ensures Edits(p, a, b, true) == [Edit("replace", p, Some(b))]
    ensures Abs(a) != Abs(b)
  {
    if Abs(a) == Abs(b) && a.Number? {
      SameNumberReflexive(a.d);
    }
  }

  /**
    Replacing a member's value by the generated patch works if and only if its key
    survives the decoding and no earlier key equals it modulo case.
   */
  lemma ReplacementExact(ms: Members, i: nat, x: Json)
    requires UniqueKeys(ms, true) && i < |ms| && Height(x) <= CIRCULAR_LIMIT
    requires !SameContainer(ms[i].value, x) && Differs(ms[i].value, x)
    ensures TripSucceeds(Object(ms), Object(ms[i := Member(ms[i].key, x)])) <==> Named(ms, i)
  {
    hide Encode, DecodeInPlace, Survives, DetachPath, AddPath, FindKey, Abs, AbsMembers, Duplicate, Differs, KeySet,
        TripSucceeds, WithMember;
    var k := ms[i].key;
    var to := ms[i := Member(k, x)];
    var d := DecodeInPlace(Encode(k));
    var f := FindKey(ms, d, false);
    ReplacementTrip(ms, i, x);
    ReplacingEdit("", ms[i].value, x);
    EncodeHasNoSlash(k);
    DirectPath(Object(ms), Encode(k), x);
    DuplicateIsIdentity(x);
    TokenFinds(ms, i);
    DecodeUndoesEncode(k);
    ValueOfUpdate(ms, i, x);
    if f.Some? {
      var rest := RemoveAt(ms, f.value);
      DirectPath(Object(rest), Encode(k), x);
      UniqueRemoval(ms, f.value);
      ValueOfRemoval(ms, f.value);
      AddedMember(rest, d, x);
      var r := WithMember(rest, d, x);
      ObjectsDiffer(r, to);
      AbsMembersAt(ms, i);
      AbsMembersAt(ms, f.value);
      WithMemberAdds(rest, d, x);
      if f.value != i {
        assert ms[f.value].key != k by {
          assert !SameKey(ms[if i < f.value then i else f.value].key, ms[if i < f.value then f.value else i].key, true);
        }
        MapsDiffer(AbsMembers(ms), k, ms[f.value].key, d, Abs(x));
      } else {
        MapsAgree(AbsMembers(ms), k, Abs(x));
      }
    }
  }

  lemma MapsDiffer(m: map<Text, Value>, k: Text, j: Text, d: Text, x: Value)
    requires k in m && j in m && j != k && m[k] != x
    ensures (m - {j})[d := x] != m[k := x]
  {
    var a, b := (m - {j})[d := x], m[k := x];
    if d == k {
      assert j in b && j !in a;
    } else {
      assert b[k] == x && a[k] == m[k];
    }
  }

  lemma MapsAgree(m: map<Text, Value>, k: Text, x: Value)
    ensures (m - {k})[k := x] == m[k := x]
  {
  }

  lemma WithMemberAdds(ms: Members, d: Text, x: Json)
    ensures AddChild(Object(ms), d, x, true) == Applied(0, Object(WithMember(ms, d, x)))
  {
  }

  // ---------------------------------------------------------------- two failing inputs

  /** A key the decoding damages: the patch that should remove "~a" is refused with status 13. */
  lemma DamagedKeyCannotBeRemoved(v: Json)
    ensures var from := Object([Member("~a", v)]);
            ApplySeq(from, GeneratePatches(from, Object([]), true).items, true) == Applied(13, from)
  {
    hide Encode, DecodeInPlace, ApplySeq, SortList, Edits, ObjectEdits;
    var x := [Member("~a", v)];
    var e := Edit("remove", "/" + Encode("~a"), None);
    DecodeDamagesExamples();
    assert RemoveAt(x, 0) == [];
    var q := SortedRemoval(x, 0);
    SortKeepsHeight(x, true);
    SortAscends(x, true);
    OneRemoved(SortList(x, true), q, Height(Object(x)));
    EditsOfObjects(x, []);
    OneEdit(Object(x), e);
    EncodeHasNoSlash("~a");
    DirectPath(Object(x), Encode("~a"), v);
    assert Lower("~a")[1] == 'a' && Lower("~0")[1] == '0';
    assert FindKey(x, "~0", false) == None;
  }

  /**
    Two keys equal modulo case: the generated removal of the second member takes the
    first one out instead, because removal ignores case.
   */
  lemma CaseVariantRemovesWrongMember(k: Text, l: Text)
    requires Less(k, l, true) && SameKey(k, l, false) && Survives(k) && Survives(l)
    ensures var from, to := Object([Member(k, True), Member(l, Json.Null)]), Object([Member(k, True)]);
            var a := ApplySeq(from, GeneratePatches(from, to, true).items, true);
            a == Applied(0, Object([Member(l, Json.Null)])) && Abs(a.root) != Abs(to)
  {
    hide Encode, ApplySeq, DetachPath, AddPath, Edits, ComposeAll, Survives, Abs;
    var x, y := [Member(k, True), Member(l, Json.Null)], [Member(k, True)];
    var e := Edit("remove", "/" + Encode(l), None);
    SecondMemberRemoved(k, l);
    ApplyComposedAll(Object(x), [e]);
    FirstOfVariants(k, l, x);
    KeyPath(Object(x), l, True);
    assert [e][1..] == [];
    assert ApplyEdits(Object(x), [e]) == ApplyEdit(Object(x), e);
    OtherKeyOtherValue(k, l);
  }

  lemma FirstOfVariants(k: Text, l: Text, x: Members)
    requires SameKey(k, l, false) && x == [Member(k, True), Member(l, Json.Null)]
    ensures FindKey(x, l, false) == Some(0) && RemoveAt(x, 0) == [Member(l, Json.Null)]
  {
  }

  lemma OtherKeyOtherValue(k: Text, l: Text)
    requires Less(k, l, true)
    ensures Abs(Object([Member(l, Json.Null)])) != Abs(Object([Member(k, True)]))
  {
    CompareZeroIsSameKey(k, l, true);
    AbsMembersKeys([Member(l, Json.Null)]);
    AbsMembersKeys([Member(k, True)]);
    assert [Member(k, True)][0].key in AbsMembers([Member(k, True)]);
  }

  /** The one edit generated there. */
  lemma SecondMemberRemoved(k: Text, l: Text)
    requires Less(k, l, true)
    ensures Edits("", Object([Member(k, True), Member(l, Json.Null)]), Object([Member(k, True)]), true) ==
            [Edit("remove", "/" + Encode(l), None)]
  {
    hide Encode;
    var x, y := [Member(k, True), Member(l, Json.Null)], [Member(k, True)];
    var h := Height(Object(x));
    assert NeighboursAscend(x, true) && SortList(x, true) == x && SortList(y, true) == y;
    CompareZeroIsSameKey(k, k, true);
    assert x[1..] == [Member(l, Json.Null)] && y[1..] == [] && x[1..][1..] == [];
    assert "" + "/" + Encode(k) == "/" + Encode(k) && "" + "/" + Encode(l) == "/" + Encode(l);
    assert ObjectEdits("", [], [], true, h) == [];
    assert ObjectEdits("", x[1..], [], true, h) == [Edit("remove", "/" + Encode(l), None)];
    assert ObjectEdits("", x, y, true, h) ==
           Edits("/" + Encode(k), True, True, true) + ObjectEdits("", x[1..], y[1..], true, h);
  }
}
