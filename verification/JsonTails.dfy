/**
  What the head's `prev` of a child list finds, as a value, and how each list operation
  moves it.

  cJSON appends behind the node that the head's `prev` names. The list sort never sets
  that pointer, so after a sort it can name nothing, or a child that is no longer last;
  removing the child it names leaves it pointing out of the list.
 */
module JsonTails {
  import opened JsonTree
  import opened JsonSort

  /** The head's `prev`: null, the child at an index, or a node outside the list. */
  datatype Tail = Lost | Points(to: nat) | Astray

  /** Appending to a list of `n` children works: it is empty or its tail is found. */
  predicate Sound(t: Tail, n: nat) {
    n == 0 || t == Points(n - 1)
  }

  /** The children after add_item_to_array: everything behind the supposed tail is cut off. */
  function Appended<T>(s: seq<T>, t: Tail, x: T): seq<T> {
    if s == [] then [x]
    else if t.Points? && t.to < |s| then s[..t.to + 1] + [x]
    else s
  }

  function TailAppended(t: Tail, n: nat): Tail {
    if n == 0 then Points(0)
    else if t.Points? && t.to < n then Points(t.to + 1)
    else t
  }

  /** Appending adds the item behind all the others exactly if the tail was sound. */
  lemma AppendedExactly<T>(s: seq<T>, t: Tail, x: T)
    ensures Appended(s, t, x) == s + [x] <==> Sound(t, |s|)
    ensures Appended(s, t, x) != s + [x] ==> |Appended(s, t, x)| <= |s|
    ensures Sound(t, |s|) ==> Sound(TailAppended(t, |s|), |s| + 1)
  {
    if Sound(t, |s|) && s != [] {
      assert s[..|s|] == s;
    }
  }

  /** The tail once child `i` of `n` is unlinked; taking the last child out repairs it. */
  function TailRemoved(t: Tail, n: nat, i: nat): Tail
    requires i < n
  {
    if n == 1 then Lost
    else if i == n - 1 then Points(n - 2)
    else if t.Points? then if t.to == i then Astray else if t.to > i then Points(t.to - 1) else t
    else t
  }

  lemma RemovalKeepsSound(t: Tail, n: nat, i: nat)
    requires i < n
    ensures Sound(t, n) || (0 < i == n - 1) ==> Sound(TailRemoved(t, n, i), n - 1)
  {
  }

  // ---------------------------------------------------------------- sorting

  /** The members with their positions in place of their values. */
  function Tagged<T>(s: seq<Member<T>>): (r: seq<Member<nat>>)
    ensures |r| == |s|
  {
    seq(|s|, i requires 0 <= i < |s| => Member(s[i].key, i))
  }

  /** For each place of the sorted list, the place that its member came from. */
  function Order<T>(s: seq<Member<T>>, cs: bool): (r: seq<Member<nat>>)
    ensures |r| == |s|
  {
    SortList(Tagged(s), cs)
  }

  function PlaceOf(o: seq<Member<nat>>, k: nat): (i: nat)
    ensures i <= |o| && (i < |o| ==> o[i].value == k)
    ensures forall j :: 0 <= j < i ==> o[j].value != k
  {
    if o == [] || o[0].value == k then 0 else 1 + PlaceOf(o[1..], k)
  }

  /** sort_list leaves the head's `prev` alone if the head stays and clears it otherwise. */
  function TailSorted<T>(s: seq<Member<T>>, t: Tail, cs: bool): Tail {
    var o := Order(s, cs);
    if o == [] then t
    else if o[0].value != 0 then Lost
    else if t.Points? then Points(PlaceOf(o, t.to)) else t
  }

  function Relabel<T, U>(s: seq<Member<T>>, f: T -> U): (r: seq<Member<U>>)
    ensures |r| == |s|
    ensures forall i :: 0 <= i < |s| ==> r[i] == Member(s[i].key, f(s[i].value))
  {
    seq(|s|, i requires 0 <= i < |s| => Member(s[i].key, f(s[i].value)))
  }

  lemma {:induction false} MergeRelabels<T, U>(a: seq<Member<T>>, b: seq<Member<T>>, f: T -> U, cs: bool)
    ensures Merge(Relabel(a, f), Relabel(b, f), cs) == Relabel(Merge(a, b, cs), f)
    decreases |a| + |b|
  {
    hide Less;
    if a != [] && b != [] {
      var x, y := Relabel(a, f), Relabel(b, f);
      assert x[1..] == Relabel(a[1..], f) && y[1..] == Relabel(b[1..], f);
      if Less(a[0].key, b[0].key, cs) {
        MergeRelabels(a[1..], b, f, cs);
        assert Merge(x, y, cs) == [x[0]] + Merge(x[1..], y, cs);
      } else {
        MergeRelabels(a, b[1..], f, cs);
        assert Merge(x, y, cs) == [y[0]] + Merge(x, y[1..], cs);
      }
    }
  }

  /** The sort looks at keys alone. */
  lemma {:induction false} SortRelabels<T, U>(s: seq<Member<T>>, f: T -> U, cs: bool)
    ensures SortList(Relabel(s, f), cs) == Relabel(SortList(s, cs), f)
    decreases |s|
  {
    assert NeighboursAscend(Relabel(s, f), cs) == NeighboursAscend(s, cs);
    if |s| >= 2 && !NeighboursAscend(s, cs) {
      var m := Middle(|s|);
      assert Relabel(s, f)[..m] == Relabel(s[..m], f) && Relabel(s, f)[m..] == Relabel(s[m..], f);
      SortRelabels(s[..m], f, cs);
      SortRelabels(s[m..], f, cs);
      MergeRelabels(SortList(s[..m], cs), SortList(s[m..], cs), f, cs);
    }
  }

  lemma PlacesPermuted(t: seq<Member<nat>>, o: seq<Member<nat>>, i: nat, j: nat)
    requires multiset(o) == multiset(t) && (forall k :: 0 <= k < |t| ==> t[k].value == k)
    requires i < j < |o|
    ensures o[i].value != o[j].value
  {
    assert o[i] in multiset(t) && o[j] in multiset(t);
    if o[i].value == o[j].value {
      assert o[i] == o[j];
      assert o == o[..j] + [o[j]] + o[j + 1..] && o[..j][i] == o[i];
      assert multiset(o) == multiset(o[..j]) + multiset{o[j]} + multiset(o[j + 1..]);
      var a, b := TwoOccurrences(t, o[i]);
    }
  }

  /** `Order` is a permutation of the places. */
  lemma OrderPermutes<T>(s: seq<Member<T>>, cs: bool)
    ensures forall i :: 0 <= i < |s| ==> Order(s, cs)[i].value < |s|
    ensures forall i, j :: 0 <= i < j < |s| ==> Order(s, cs)[i].value != Order(s, cs)[j].value
    ensures forall k :: 0 <= k < |s| ==> PlaceOf(Order(s, cs), k) < |s|
  {
    hide SortList, PlaceOf;
    var t, o := Tagged(s), Order(s, cs);
    SortPermutes(t, cs);
    forall i | 0 <= i < |s| ensures o[i].value < |s| {
      assert o[i] in multiset(t);
    }
    forall i, j | 0 <= i < j < |s| ensures o[i].value != o[j].value {
      PlacesPermuted(t, o, i, j);
    }
    forall k | 0 <= k < |s| ensures PlaceOf(o, k) < |s| {
      assert t[k] in multiset(o);
      var i :| 0 <= i < |o| && o[i] == t[k];
    }
  }

  /** The sorted list, spelled out by `Order`. */
  lemma SortByOrder<T>(s: seq<Member<T>>, cs: bool)
    ensures forall i :: 0 <= i < |s| ==> Order(s, cs)[i].value < |s| && SortList(s, cs)[i] == s[Order(s, cs)[i].value]
  {
    OrderPermutes(s, cs);
    if s != [] {
      var f: nat -> T := (k: nat) => if k < |s| then s[k].value else s[0].value;
      var t := Tagged(s);
      assert Relabel(t, f) == s;
      SortRelabels(t, f, cs);
      var o := Order(s, cs);
      SortPermutes(t, cs);
      forall i | 0 <= i < |s| ensures SortList(s, cs)[i] == s[o[i].value] {
        assert o[i] in multiset(t);
        assert SortList(s, cs)[i] == Member(o[i].key, f(o[i].value));
      }
    }
  }

  /** A list that ascends already is not touched by the sort, and its tail stays sound. */
  lemma AscendingStaysSound<T>(s: seq<Member<T>>, t: Tail, cs: bool)
    requires NeighboursAscend(s, cs) && Sound(t, |s|)
    ensures SortList(s, cs) == s && Sound(TailSorted(s, t, cs), |s|)
  {
    var o := Order(s, cs);
    assert NeighboursAscend(Tagged(s), cs);
    assert o == Tagged(s);
    OrderPermutes(s, cs);
  }

  predicate AtLeastAll<T>(k: Text, s: seq<Member<T>>, cs: bool) {
    forall j :: 0 <= j < |s| ==> CompareStrings(s[j].key, k, cs) <= 0
  }

  lemma OrderAscends<T>(s: seq<Member<T>>, cs: bool)
    requires UniqueKeys(s, cs)
    ensures Ascending(Order(s, cs), cs)
    ensures forall i :: 0 <= i < |s| ==>
              Order(s, cs)[i].value < |s| && Order(s, cs)[i].key == s[Order(s, cs)[i].value].key
  {
    var t := Tagged(s);
    SortAscends(t, cs);
    SortPermutes(t, cs);
    forall i | 0 <= i < |s| ensures Order(s, cs)[i] in multiset(t) {
    }
  }

  lemma LessIsNotAtMost(a: Text, b: Text, cs: bool)
    requires Less(a, b, cs)
    ensures CompareStrings(b, a, cs) > 0
  {
    CompareAntisymmetric(a, b, cs);
  }

  /** With unique keys the first member stays first exactly if its key is the least. */
  lemma SortKeepsHead<T>(s: seq<Member<T>>, cs: bool)
    requires UniqueKeys(s, cs) && s != []
    ensures Order(s, cs)[0].value == 0 <==> AtMostAll(s[0].key, s, cs)
  {
    hide SortList;
    var o := Order(s, cs);
    OrderPermutes(s, cs);
    OrderAscends(s, cs);
    var p := PlaceOf(o, 0);
    if p > 0 {
      LessIsNotAtMost(o[0].key, o[p].key, cs);
      assert !AtMostAll(s[0].key, s, cs);
    } else {
      forall k | 0 <= k < |s| ensures CompareStrings(s[0].key, s[k].key, cs) <= 0 {
        var q := PlaceOf(o, k);
        CompareZeroIsSameKey(s[0].key, s[0].key, cs);
        assert q > 0 ==> Less(o[0].key, o[q].key, cs);
      }
    }
  }

  /** With unique keys the last member stays last exactly if its key is the greatest. */
  lemma SortKeepsLast<T>(s: seq<Member<T>>, cs: bool)
    requires UniqueKeys(s, cs) && s != []
    ensures Order(s, cs)[|s| - 1].value == |s| - 1 <==> AtLeastAll(s[|s| - 1].key, s, cs)
  {
    hide SortList;
    var o, n := Order(s, cs), |s| - 1;
    OrderPermutes(s, cs);
    OrderAscends(s, cs);
    var p := PlaceOf(o, n);
    if p < n {
      LessIsNotAtMost(o[p].key, o[n].key, cs);
      assert !AtLeastAll(s[n].key, s, cs);
    } else {
      forall k | 0 <= k < |s| ensures CompareStrings(s[k].key, s[n].key, cs) <= 0 {
        var q := PlaceOf(o, k);
        CompareZeroIsSameKey(s[n].key, s[n].key, cs);
        assert q < n ==> Less(o[q].key, o[n].key, cs);
      }
    }
  }

  /**
    Sorting a list with unique keys keeps a sound tail exactly if the first key is the
    least and the last key the greatest.
   */
  lemma SortKeepsTailExactly<T>(s: seq<Member<T>>, t: Tail, cs: bool)
    requires Sound(t, |s|) && UniqueKeys(s, cs)
    ensures Sound(TailSorted(s, t, cs), |s|) <==>
            s == [] || (AtMostAll(s[0].key, s, cs) && AtLeastAll(s[|s| - 1].key, s, cs))
  {
    hide SortList;
    OrderPermutes(s, cs);
    if s != [] {
      SortKeepsHead(s, cs);
      SortKeepsLast(s, cs);
    }
  }

  /**
    The members "a", "c", "b" in that order: the sort leaves "a" first and its `prev` at
    "b", now second, and appending a member then cuts "c" off.
   */
  lemma StaleTailCutsAMember<T>(x: T, y: T, z: T, m: Member<T>)
    ensures var s := [Member("a", x), Member("c", y), Member("b", z)];
            && SortList(s, true) == [Member("a", x), Member("b", z), Member("c", y)]
            && TailSorted(s, Points(2), true) == Points(1)
            && Appended(SortList(s, true), Points(1), m) == [Member("a", x), Member("b", z), m]
  {
    var s := [Member("a", x), Member("c", y), Member("b", z)];
    hide SortList;
    SortThree<nat>(0, 1, 2);
    SortThree(x, y, z);
    assert Tagged(s) == [Member("a", 0), Member("c", 1), Member("b", 2)];
    assert Order(s, true) == [Member("a", 0), Member("b", 2), Member("c", 1)];
    assert Order(s, true)[1..] == [Member("b", 2), Member("c", 1)];
    assert PlaceOf([Member("b", 2), Member("c", 1)], 2) == 0;
    assert PlaceOf(Order(s, true), 2) == 1;
  }

  lemma SortThree<T>(x: T, y: T, z: T)
    ensures SortList([Member("a", x), Member("c", y), Member("b", z)], true) ==
            [Member("a", x), Member("b", z), Member("c", y)]
  {
    var s := [Member("a", x), Member("c", y), Member("b", z)];
    assert "a"[1..] == [] && "b"[1..] == [] && "c"[1..] == [];
    assert Less("a", "c", true) && Less("a", "b", true) && !Less("c", "b", true);
    assert !Less(s[1].key, s[2].key, true);
    assert s[..2] == [s[0], s[1]] && s[2..] == [s[2]];
    assert NeighboursAscend(s[..2], true);
    assert Merge([s[1]], [s[2]], true) == [s[2], s[1]];
  }
}
