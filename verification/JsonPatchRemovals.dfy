/**
  Exactly when the patches that only remove members do remove these and no others. Each
  removal looks its key up without regard to case in the document as it stands: it may
  take another member than the one it names, and that is made good if the other one has
  to go as well.
 */
module JsonPatchRemovals {
  import opened Basics
  import opened JsonTree
  import opened JsonObjects
  import opened JsonSort
  import opened JsonPointer
  import opened JsonPatch
  import opened JsonPatchRoundTrip
  import opened JsonPatchExact

  /** The keys of a list that are not kept, in order. */
  function Gone(s: Members, kept: set<Text>): seq<Text> {
    if s == [] then []
    else (if s[0].key in kept then [] else [s[0].key]) + Gone(s[1..], kept)
  }

  function Removes(ks: seq<Text>): (r: seq<Edit>)
    ensures |r| == |ks|
    ensures forall i :: 0 <= i < |ks| ==> r[i] == Edit("remove", "/" + Encode(ks[i]), None)
  {
    seq(|ks|, i requires 0 <= i < |ks| => Edit("remove", "/" + Encode(ks[i]), None))
  }

  /** The member that the removal of a key finds in the document as it stands. */
  function Found(cur: Members, k: Text): (r: Option<nat>)
    ensures r.Some? ==> r.value < |cur|
  {
    FindKey(cur, DecodeInPlace(Encode(k)), false)
  }

  /** Each removal finds a member, and none that stays. */
  predicate TakesNoneOf(kept: set<Text>, cur: Members, ks: seq<Text>)
    decreases |ks|
  {
    ks != [] ==>
      var f := Found(cur, ks[0]);
      f.Some? && cur[f.value].key !in kept && TakesNoneOf(kept, RemoveAt(cur, f.value), ks[1..])
  }

  // ---------------------------------------------------------------- the edits

  /** The members of a list that are kept, in order. */
  function Part(s: Members, kept: set<Text>): (r: Members)
    ensures forall m :: m in r <==> m in s && m.key in kept
  {
    if s == [] then []
    else (if s[0].key in kept then [s[0]] else []) + Part(s[1..], kept)
  }

  lemma EditsOfKept(s: Members, t: Members, h: nat)
    requires s != [] && t != [] && s[0] == t[0] && MembersHeight(s) < h
    ensures ObjectEdits("", s, t, true, h) == ObjectEdits("", s[1..], t[1..], true, h)
  {
    hide Encode, Edits;
    CompareZeroIsSameKey(s[0].key, s[0].key, true);
    NoEdits("" + "/" + Encode(s[0].key), s[0].value);
  }

  lemma EditsOfGone(s: Members, t: Members, h: nat)
    requires s != [] && MembersHeight(s) < h && (t == [] || Less(s[0].key, t[0].key, true))
    ensures ObjectEdits("", s, t, true, h) ==
            [Edit("remove", "/" + Encode(s[0].key), None)] + ObjectEdits("", s[1..], t, true, h)
  {
    hide Encode, Edits;
    assert "" + "/" + Encode(s[0].key) == "/" + Encode(s[0].key);
  }

  lemma PartUnfolds(s: Members, kept: set<Text>)
    requires s != []
    ensures var k, t, rest := s[0].key, Part(s[1..], kept), Gone(s[1..], kept);
            if k in kept then
              Part(s, kept) == [s[0]] + t && Part(s, kept)[1..] == t && Gone(s, kept) == rest
            else
              Part(s, kept) == t && Gone(s, kept) == [k] + rest
              && Removes(Gone(s, kept)) == [Edit("remove", "/" + Encode(k), None)] + Removes(rest)
  {
    hide Encode;
    var k, rest := s[0].key, Gone(s[1..], kept);
    assert Removes([k] + rest) == [Edit("remove", "/" + Encode(k), None)] + Removes(rest);
  }

  lemma {:induction false} PartAscends(s: Members, kept: set<Text>)
    requires Ascending(s, true)
    ensures Ascending(Part(s, kept), true) && |Gone(s, kept)| + |Part(s, kept)| == |s|
    ensures s != [] ==> forall m :: m in Part(s[1..], kept) ==> Less(s[0].key, m.key, true)
  {
    hide Less, Encode;
    if s != [] {
      PartUnfolds(s, kept);
      PartAscends(s[1..], kept);
    }
  }

  /** Between a list and a part of it, only removals are generated. */
  lemma {:induction false} OnlyRemovals(s: Members, kept: set<Text>, h: nat)
    requires (s == [] || MembersHeight(s) < h) && Ascending(s, true)
    ensures ObjectEdits("", s, Part(s, kept), true, h) == Removes(Gone(s, kept))
    decreases |s|
  {
    if s != [] {
      hide Encode, ObjectEdits, CompareStrings, Less, Removes, Part, Gone;
      PartUnfolds(s, kept);
      PartAscends(s, kept);
      OnlyRemovals(s[1..], kept, h);
      if s[0].key in kept {
        EditsOfKept(s, Part(s, kept), h);
      } else {
        var t := Part(s, kept);
        assert t != [] ==> t[0] in t;
        EditsOfGone(s, t, h);
      }
    }
  }

  lemma HeadInBoth(s: Members, t: Members)
    requires Ascending(s, true) && Ascending(t, true) && forall m :: m in s <==> m in t
    requires s != []
    ensures t != [] && s[0] == t[0] && forall m :: m in s[1..] <==> m in t[1..]
  {
    assert s[0] in t;
    assert t[0] in s;
    var j :| 0 <= j < |t| && t[j] == s[0];
    var i :| 0 <= i < |s| && s[i] == t[0];
    CompareAntisymmetric(s[0].key, t[0].key, true);
    assert s[0] == t[0];
    NotInTail(s);
    NotInTail(t);
    forall m ensures m in s[1..] <==> m in t[1..] {
      InTail(s, m);
      InTail(t, m);
    }
  }

  lemma InTail(s: Members, m: Member<Json>)
    requires s != [] && s[0] !in s[1..]
    ensures m in s[1..] <==> m in s && m != s[0]
  {
    assert s == [s[0]] + s[1..];
  }

  lemma NotInTail(s: Members)
    requires Ascending(s, true) && s != []
    ensures s[0] !in s[1..]
  {
    CompareZeroIsSameKey(s[0].key, s[0].key, true);
  }

  /** Ascending lists with the same members are the same list. */
  lemma {:induction false} SameMembersSameList(s: Members, t: Members)
    requires Ascending(s, true) && Ascending(t, true) && forall m :: m in s <==> m in t
    ensures s == t
  {
    if s != [] {
      HeadInBoth(s, t);
      SameMembersSameList(s[1..], t[1..]);
    } else if t != [] {
      HeadInBoth(t, s);
    }
  }

  /** The second object is a part of the first. */
  predicate PartOf(y: Members, x: Members) {
    UniqueKeys(x, true) && UniqueKeys(y, true) && forall m :: m in y ==> m in x
  }

  lemma SortedMembers(s: Members)
    ensures forall m :: m in SortList(s, true) <==> m in s
  {
    SortPermutes(s, true);
    forall m ensures m in SortList(s, true) <==> m in s {
      assert m in SortList(s, true) <==> m in multiset(SortList(s, true));
      assert m in s <==> m in multiset(s);
    }
  }

  lemma OneIndex(x: Members, p: nat, q: nat)
    requires UniqueKeys(x, true) && p < |x| && q < |x| && x[p].key == x[q].key
    ensures p == q
  {
  }

  lemma KeptIsPart(x: Members, y: Members)
    requires PartOf(y, x)
    ensures forall m :: m in y <==> m in x && m.key in KeySet(y)
  {
    forall m | m in x && m.key in KeySet(y) ensures m in y {
      var j :| 0 <= j < |y| && y[j].key == m.key;
      assert y[j] in x;
      var p :| 0 <= p < |x| && x[p] == y[j];
      var q :| 0 <= q < |x| && x[q] == m;
      OneIndex(x, p, q);
    }
  }

  lemma GeneratedRemovals(x: Members, y: Members)
    requires PartOf(y, x)
    ensures var ks := Gone(SortList(x, true), KeySet(y));
            Edits("", Object(x), Object(y), true) == Removes(ks) && |x| == |ks| + |y|
  {
    hide SortList, ObjectEdits;
    var s, t := SortList(x, true), SortList(y, true);
    SortKeepsHeight(x, true);
    SortAscends(x, true);
    SortAscends(y, true);
    SortedMembers(x);
    SortedMembers(y);
    KeptIsPart(x, y);
    OnlyRemovals(s, KeySet(y), Height(Object(x)));
    PartAscends(s, KeySet(y));
    SameMembersSameList(Part(s, KeySet(y)), t);
  }

  // ---------------------------------------------------------------- running the removals

  lemma OneRemoval(cur: Members, k: Text)
    ensures var f, a := Found(cur, k), ApplyEdit(Object(cur), Edit("remove", "/" + Encode(k), None));
            if f.None? then a.status == 13 else a == Applied(0, Object(RemoveAt(cur, f.value)))
  {
    hide Encode, DecodeInPlace, DetachPath, AddPath, FindKey;
    EncodeHasNoSlash(k);
    DirectPath(Object(cur), Encode(k), Json.Null);
  }

  lemma RemovesCons(k: Text, ks: seq<Text>)
    ensures Removes([k] + ks)[0] == Edit("remove", "/" + Encode(k), None) && Removes([k] + ks)[1..] == Removes(ks)
  {
  }

  lemma RemovalFacts(cur: Members, i: nat)
    requires UniqueKeys(cur, true) && i < |cur|
    ensures var r := RemoveAt(cur, i);
            && UniqueKeys(r, true) && KeySet(r) == KeySet(cur) - {cur[i].key}
            && (forall m :: m in r ==> m in cur)
  {
    UniqueRemoval(cur, i);
    var r := RemoveAt(cur, i);
    assert forall j :: 0 <= j < |r| ==> r[j] == cur[if j < i then j else j + 1];
    forall k | k in KeySet(cur) && k != cur[i].key ensures k in KeySet(r) {
      var j :| 0 <= j < |cur| && cur[j].key == k;
      assert r[if j < i then j else j - 1].key == k;
    }
  }

  /** Removals only take members out. */
  lemma {:induction false} RemovalsShrink(cur: Members, ks: seq<Text>)
    requires UniqueKeys(cur, true)
    ensures var a := ApplyEdits(Object(cur), Removes(ks));
            a.status == 0 ==>
              && a.root.Object? && UniqueKeys(a.root.members, true)
              && KeySet(a.root.members) <= KeySet(cur) && forall m :: m in a.root.members ==> m in cur
    decreases |ks|
  {
    hide ApplyEdit, Found, Encode, SameKey;
    if ks != [] {
      var f := Found(cur, ks[0]);
      OneRemoval(cur, ks[0]);
      assert ks == [ks[0]] + ks[1..];
      RemovesCons(ks[0], ks[1..]);
      if f.Some? {
        RemovalFacts(cur, f.value);
        RemovalsShrink(RemoveAt(cur, f.value), ks[1..]);
      }
    }
  }

  lemma {:induction false} KeysCounted(s: Members)
    requires UniqueKeys(s, true)
    ensures |KeySet(s)| == |s|
  {
    if s != [] {
      UniqueTail(s);
      KeysCounted(s[1..]);
      var t := s[1..];
      assert KeySet(s) == {s[0].key} + KeySet(t) by {
        assert forall i :: 0 <= i < |t| ==> t[i] == s[i + 1];
        assert forall i :: 1 <= i < |s| ==> s[i] == t[i - 1];
      }
    }
  }

  lemma SubsetOfSameSize(a: set<Text>, b: set<Text>)
    requires a <= b && |a| == |b|
    ensures a == b
  {
    assert b == a + (b - a);
  }

  /** The removals leave exactly the keys that are kept if and only if none of them takes a kept member. */
  lemma {:induction false} RemovalsRun(cur: Members, ks: seq<Text>, kept: set<Text>)
    requires UniqueKeys(cur, true) && kept <= KeySet(cur) && |cur| == |ks| + |kept|
    ensures var a := ApplyEdits(Object(cur), Removes(ks));
            TakesNoneOf(kept, cur, ks) <==> a.status == 0 && a.root.Object? && KeySet(a.root.members) == kept
    decreases |ks|
  {
    hide ApplyEdit, Found, Encode, SameKey, KeySet;
    if ks == [] {
      KeysCounted(cur);
      SubsetOfSameSize(kept, KeySet(cur));
    } else {
      var f := Found(cur, ks[0]);
      OneRemoval(cur, ks[0]);
      assert ks == [ks[0]] + ks[1..];
      RemovesCons(ks[0], ks[1..]);
      if f.Some? {
        RemovalFacts(cur, f.value);
        if cur[f.value].key in kept {
          RemovalsShrink(RemoveAt(cur, f.value), ks[1..]);
        } else {
          RemovalsRun(RemoveAt(cur, f.value), ks[1..], kept);
        }
      }
    }
  }

  lemma SameKeysSameValue(r: Members, x: Members, y: Members)
    requires PartOf(y, x) && UniqueKeys(r, true) && forall m :: m in r ==> m in x
    ensures AbsMembers(r) == AbsMembers(y) <==> KeySet(r) == KeySet(y)
  {
    hide Abs;
    AbsMembersKeys(r);
    AbsMembersKeys(y);
    if KeySet(r) == KeySet(y) {
      KeptIsPart(x, y);
      forall k | k in KeySet(r) ensures AbsMembers(r)[k] == AbsMembers(y)[k] {
        var i :| 0 <= i < |r| && r[i].key == k;
        assert r[i] in r && r[i] in x && r[i] in y;
        var j :| 0 <= j < |y| && y[j] == r[i];
        AbsMembersAt(r, i);
        AbsMembersAt(y, j);
      }
    }
  }

  /**
    From an object to any part of it: the generated patch, which removes the other members
    in the order of strcmp, succeeds and gives that part if and only if every removal
    finds a member in the document as it stands that does not stay.
   */
  lemma RemovalsExactly(x: Members, y: Members)
    requires PartOf(y, x)
    ensures TripSucceeds(Object(x), Object(y)) <==>
            TakesNoneOf(KeySet(y), x, Gone(SortList(x, true), KeySet(y)))
  {
    hide SortList, KeySet, ApplyEdits, ApplySeq, Edits, Removes;
    var ks := Gone(SortList(x, true), KeySet(y));
    GeneratedRemovals(x, y);
    ApplyRemovals(Object(x), ks);
    KeysCounted(y);
    KeptKeys(x, y);
    RemovalsRun(x, ks, KeySet(y));
    RemovalsShrink(x, ks);
    var a := ApplyEdits(Object(x), Removes(ks));
    if a.status == 0 {
      SameKeysSameValue(a.root.members, x, y);
      ObjectsDiffer(a.root.members, y);
    }
  }

  lemma KeptKeys(x: Members, y: Members)
    requires PartOf(y, x)
    ensures KeySet(y) <= KeySet(x)
  {
    forall j | 0 <= j < |y| ensures y[j].key in KeySet(x) {
      assert y[j] in x;
      var i :| 0 <= i < |x| && x[i] == y[j];
      assert x[i].key in KeySet(x);
    }
  }

  lemma ApplyRemovals(root: Json, ks: seq<Text>)
    ensures ApplySeq(root, ComposeAll(Removes(ks)), true) == ApplyEdits(root, Removes(ks))
  {
    ApplyComposedAll(root, Removes(ks));
  }

  // ---------------------------------------------------------------- read off the first object

  /** No member that stays comes before one that goes and has the same key modulo case. */
  predicate GoneComeFirst(s: Members, kept: set<Text>) {
    forall i, j :: 0 <= i < j < |s| && s[i].key in kept && s[j].key !in kept ==> !SameKey(s[i].key, s[j].key, false)
  }

  /** The members that go, by their keys in lower case. */
  function Classes(s: Members, kept: set<Text>): multiset<Text> {
    if s == [] then multiset{}
    else (if s[0].key in kept then multiset{} else multiset{Lower(s[0].key)}) + Classes(s[1..], kept)
  }

  function LowerAll(ks: seq<Text>): multiset<Text> {
    if ks == [] then multiset{} else multiset{Lower(ks[0])} + LowerAll(ks[1..])
  }

  lemma {:induction false} ClassesOfGone(s: Members, kept: set<Text>)
    ensures LowerAll(Gone(s, kept)) == Classes(s, kept)
  {
    if s != [] {
      ClassesOfGone(s[1..], kept);
      var rest := Gone(s[1..], kept);
      assert ([s[0].key] + rest)[1..] == rest && [] + rest == rest;
    }
  }

  lemma {:induction false} ClassesWithout(s: Members, i: nat, kept: set<Text>)
    requires i < |s|
    ensures Classes(s, kept) == Classes(RemoveAt(s, i), kept) +
                                (if s[i].key in kept then multiset{} else multiset{Lower(s[i].key)})
  {
    var r := RemoveAt(s, i);
    if i == 0 {
      assert r == s[1..];
    } else {
      ClassesWithout(s[1..], i - 1, kept);
      assert r[0] == s[0] && r[1..] == RemoveAt(s[1..], i - 1);
    }
  }

  lemma HeadElsewhere(s: Members, t: Members) returns (i: nat)
    requires multiset(s) == multiset(t) && s != []
    ensures i < |t| && t[i] == s[0] && multiset(RemoveAt(t, i)) == multiset(s[1..])
  {
    assert s == [s[0]] + s[1..];
    assert multiset(s) == multiset{s[0]} + multiset(s[1..]);
    assert s[0] in multiset(t);
    i :| 0 <= i < |t| && t[i] == s[0];
    RemovalMultiset(t, i);
    hide RemoveAt;
  }

  lemma {:induction false} ClassesOfPermutation(s: Members, t: Members, kept: set<Text>)
    requires multiset(s) == multiset(t)
    ensures Classes(s, kept) == Classes(t, kept)
    decreases |s|
  {
    if s == [] {
      assert |t| == |multiset(t)| == |multiset(s)| == 0;
    } else {
      var i := HeadElsewhere(s, t);
      ClassesOfPermutation(s[1..], RemoveAt(t, i), kept);
      ClassesWithout(t, i, kept);
      hide Lower, RemoveAt;
    }
  }

  lemma {:induction false} ClassOccurs(s: Members, kept: set<Text>, c: Text) returns (i: nat)
    requires c in Classes(s, kept)
    ensures i < |s| && s[i].key !in kept && Lower(s[i].key) == c
  {
    if s[0].key !in kept && Lower(s[0].key) == c {
      i := 0;
    } else {
      i := ClassOccurs(s[1..], kept, c);
      i := i + 1;
    }
  }

  lemma GoneWithout(s: Members, f: nat, kept: set<Text>)
    requires f < |s| && s[f].key !in kept
    requires forall i :: 0 <= i < f ==> !SameKey(s[i].key, s[f].key, false)
    ensures GoneComeFirst(s, kept) <==> GoneComeFirst(RemoveAt(s, f), kept)
  {
    hide SameKey;
    var r := RemoveAt(s, f);
    if GoneComeFirst(r, kept) {
      forall i, j | 0 <= i < j < |s| && s[i].key in kept && s[j].key !in kept
        ensures !SameKey(s[i].key, s[j].key, false)
      {
        if j != f {
          assert r[if i < f then i else i - 1] == s[i] && r[if j < f then j else j - 1] == s[j];
        }
      }
    }
  }

  lemma Cancel(a: multiset<Text>, b: multiset<Text>, c: Text)
    requires a + multiset{c} == multiset{c} + b
    ensures a == b
  {
    assert a == (a + multiset{c}) - multiset{c} && b == (multiset{c} + b) - multiset{c};
  }

  /** The removal of a surviving key finds the first member of its class, and the class has one that goes. */
  lemma FoundInClass(cur: Members, k: Text, kept: set<Text>) returns (g: nat)
    requires Survives(k) && Lower(k) in Classes(cur, kept)
    ensures g < |cur| && cur[g].key !in kept
    ensures var f := Found(cur, k);
            && f.Some? && f.value <= g && SameKey(cur[f.value].key, cur[g].key, false)
            && Lower(cur[f.value].key) == Lower(k)
            && forall i :: 0 <= i < f.value ==> !SameKey(cur[i].key, cur[f.value].key, false)
  {
    hide Survives, Encode, DecodeInPlace, Classes;
    DecodeUndoesEncode(k);
    g := ClassOccurs(cur, kept, Lower(k));
    assert SameKey(cur[g].key, k, false);
  }

  lemma {:induction false} TakesByOrder(cur: Members, ks: seq<Text>, kept: set<Text>)
    requires Classes(cur, kept) == LowerAll(ks) && forall i :: 0 <= i < |ks| ==> Survives(ks[i])
    ensures TakesNoneOf(kept, cur, ks) <==> GoneComeFirst(cur, kept)
    decreases |ks|
  {
    hide Survives, Found, SameKey, Lower, Classes;
    if ks == [] {
      forall j | 0 <= j < |cur| ensures cur[j].key in kept {
        ClassesWithout(cur, j, kept);
      }
    } else {
      var f := Found(cur, ks[0]);
      var g := FoundInClass(cur, ks[0], kept);
      if cur[f.value].key !in kept {
        var rest := RemoveAt(cur, f.value);
        ClassesWithout(cur, f.value, kept);
        Cancel(Classes(rest, kept), LowerAll(ks[1..]), Lower(ks[0]));
        GoneWithout(cur, f.value, kept);
        TakesByOrder(rest, ks[1..], kept);
      }
    }
  }

  lemma {:induction false} GoneKey(s: Members, kept: set<Text>, i: nat) returns (m: Member<Json>)
    requires i < |Gone(s, kept)|
    ensures m in s && m.key !in kept && m.key == Gone(s, kept)[i]
  {
    if s[0].key !in kept && i == 0 {
      m := s[0];
    } else {
      m := GoneKey(s[1..], kept, if s[0].key in kept then i else i - 1);
    }
  }

  /**
    Where the keys that go survive the decoding, the patch from an object to a part of it
    leads there if and only if no member that stays comes before one that goes and has the
    same key modulo case.
   */
  lemma RemovalsByOrder(x: Members, y: Members)
    requires PartOf(y, x) && forall m :: m in x && m !in y ==> Survives(m.key)
    ensures TripSucceeds(Object(x), Object(y)) <==> GoneComeFirst(x, KeySet(y))
  {
    hide SortList, KeySet, Survives, TakesNoneOf, TripSucceeds;
    var kept, s := KeySet(y), SortList(x, true);
    RemovalsExactly(x, y);
    KeptIsPart(x, y);
    SortedMembers(x);
    SortPermutes(x, true);
    ClassesOfPermutation(s, x, kept);
    ClassesOfGone(s, kept);
    forall i | 0 <= i < |Gone(s, kept)| ensures Survives(Gone(s, kept)[i]) {
      var m := GoneKey(s, kept, i);
    }
    TakesByOrder(x, Gone(s, kept), kept);
  }
}
