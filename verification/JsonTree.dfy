/**
  JSON trees as cJSON holds them, the key order used by the utilities, and the
  mathematical value of a tree.

  A C string is modelled by its bytes before the terminating NUL, one `char` per
  byte. The member list of an object is a sequence, because cJSON keeps insertion
  order; `Abs` forgets that order, so `Abs(a) == Abs(b)` is equality up to member
  order.
 */
module JsonTree {
  import opened Basics

  type Text = string

  datatype Member<T> = Member(key: Text, value: T)

  type Members = seq<Member<Json>>

  datatype Json =
    | Invalid
    | False
    | True
    | Null
    | Number(d: real)
    | String(s: Text)
    | Array(items: seq<Json>)
    | Object(members: seq<Member<Json>>)

  const INT_MAX := 0x7FFF_FFFF
  const INT_MIN := -0x8000_0000
  const CIRCULAR_LIMIT := 10000

  /** `valueint`: the double truncated toward zero and saturated to a C int. */
  function ValueInt(d: real): (n: int)
    ensures INT_MIN <= n <= INT_MAX
  {
    if d >= INT_MAX as real then INT_MAX
    else if d <= INT_MIN as real then INT_MIN
    else if d >= 0.0 then d.Floor
    else -((-d).Floor)
  }

  /** The number is one that a C int represents exactly. */
  predicate IsInt(d: real) {
    d == ValueInt(d) as real
  }

  function Fabs(d: real): real {
    if d < 0.0 then -d else d
  }

  const DBL_EPSILON := 1.0 / 4503599627370496.0

  predicate CompareDouble(a: real, b: real) {
    var maxVal := if Fabs(a) > Fabs(b) then Fabs(a) else Fabs(b);
    Fabs(a - b) <= maxVal * DBL_EPSILON
  }

  predicate SameNumber(a: real, b: real) {
    ValueInt(a) == ValueInt(b) && CompareDouble(a, b)
  }

  lemma SameNumberIsEquality(a: real, b: real)
    requires IsInt(a) && IsInt(b)
    ensures SameNumber(a, b) <==> a == b
  {
    if a == b {
      var maxVal := Fabs(a);
      assert maxVal >= 0.0;
      assert maxVal * DBL_EPSILON >= 0.0;
    }
  }

  // ---------------------------------------------------------------- keys

  function ToLower(c: char): char {
    if 'A' <= c <= 'Z' then (c as int + 32) as char else c
  }

  function Lower(s: Text): (r: Text)
    ensures |r| == |s|
    ensures forall i :: 0 <= i < |s| ==> r[i] == ToLower(s[i])
  {
    seq(|s|, i requires 0 <= i < |s| => ToLower(s[i]))
  }

  /** The two strings are equal under the chosen case rule. */
  predicate SameKey(a: Text, b: Text, cs: bool) {
    if cs then a == b else Lower(a) == Lower(b)
  }

  function Fold(c: char, cs: bool): char {
    if cs then c else ToLower(c)
  }

  /** The sign of strcmp (case sensitive) or of the tolower comparison loop. */
  function CompareStrings(a: Text, b: Text, cs: bool): int {
    if a == [] && b == [] then 0
    else if a == [] then -1
    else if b == [] then 1
    else if Fold(a[0], cs) != Fold(b[0], cs) then Fold(a[0], cs) as int - Fold(b[0], cs) as int
    else CompareStrings(a[1..], b[1..], cs)
  }

  lemma {:induction false} CompareAntisymmetric(a: Text, b: Text, cs: bool)
    ensures CompareStrings(a, b, cs) < 0 <==> CompareStrings(b, a, cs) > 0
    ensures CompareStrings(a, b, cs) == 0 <==> CompareStrings(b, a, cs) == 0
  {
    if a != [] && b != [] {
      CompareAntisymmetric(a[1..], b[1..], cs);
    }
  }

  lemma SameKeyTail(a: Text, b: Text, cs: bool)
    requires a != [] && b != []
    ensures SameKey(a, b, cs) <==> Fold(a[0], cs) == Fold(b[0], cs) && SameKey(a[1..], b[1..], cs)
  {
    assert a == [a[0]] + a[1..] && b == [b[0]] + b[1..];
    assert Lower(a) == [ToLower(a[0])] + Lower(a[1..]) && Lower(b) == [ToLower(b[0])] + Lower(b[1..]);
    assert Lower(a)[1..] == Lower(a[1..]) && Lower(b)[1..] == Lower(b[1..]);
    assert Lower(a)[0] == ToLower(a[0]) && Lower(b)[0] == ToLower(b[0]);
  }

  lemma SameKeyEmpty(a: Text, b: Text, cs: bool)
    requires a == [] || b == []
    ensures SameKey(a, b, cs) <==> a == b
  {
    assert |Lower(a)| == |a| && |Lower(b)| == |b|;
  }

  lemma {:induction false} CompareZeroIsSameKey(a: Text, b: Text, cs: bool)
    ensures CompareStrings(a, b, cs) == 0 <==> SameKey(a, b, cs)
  {
    hide Lower, SameKey;
    if a != [] && b != [] {
      CompareZeroIsSameKey(a[1..], b[1..], cs);
      SameKeyTail(a, b, cs);
    } else {
      SameKeyEmpty(a, b, cs);
    }
  }

  lemma {:induction false} CompareTransitive(a: Text, b: Text, c: Text, cs: bool)
    requires CompareStrings(a, b, cs) <= 0 && CompareStrings(b, c, cs) <= 0
    ensures CompareStrings(a, c, cs) <= 0
    ensures CompareStrings(a, b, cs) < 0 || CompareStrings(b, c, cs) < 0 ==> CompareStrings(a, c, cs) < 0
  {
    if a != [] && b != [] && c != [] && Fold(a[0], cs) == Fold(b[0], cs) == Fold(c[0], cs) {
      CompareTransitive(a[1..], b[1..], c[1..], cs);
    }
  }

  predicate IsLower(s: Text) {
    Lower(s) == s
  }

  lemma {:induction false} CompareOnLowerCase(a: Text, b: Text, cs: bool)
    requires IsLower(a) && IsLower(b)
    ensures CompareStrings(a, b, cs) == CompareStrings(a, b, true)
  {
    if a != [] && b != [] {
      assert a[0] == Lower(a)[0] && b[0] == Lower(b)[0];
      LowerTail(a);
      LowerTail(b);
      CompareOnLowerCase(a[1..], b[1..], cs);
    }
  }

  lemma LowerTail(a: Text)
    requires IsLower(a) && a != []
    ensures IsLower(a[1..])
  {
    assert forall i :: 0 <= i < |a| - 1 ==> a[1..][i] == Lower(a)[i + 1] == ToLower(a[i + 1]);
    assert Lower(a[1..]) == a[1..];
  }

  // ---------------------------------------------------------------- lists of members

  /** No two members carry the same key under the chosen case rule. */
  predicate UniqueKeys<T>(s: seq<Member<T>>, cs: bool) {
    forall i, j :: 0 <= i < j < |s| ==> !SameKey(s[i].key, s[j].key, cs)
  }

  lemma UniqueFoldedIsUnique<T>(s: seq<Member<T>>)
    requires UniqueKeys(s, false)
    ensures UniqueKeys(s, true)
  {
  }

  /** The index of the first member whose key matches, as get_object_item walks. */
  function FindKey<T>(s: seq<Member<T>>, k: Text, cs: bool): (r: Option<nat>)
    ensures r.Some? ==> r.value < |s| && SameKey(s[r.value].key, k, cs)
    ensures r.Some? ==> forall j :: 0 <= j < r.value ==> !SameKey(s[j].key, k, cs)
    ensures r.None? ==> forall j :: 0 <= j < |s| ==> !SameKey(s[j].key, k, cs)
  {
    if s == [] then None
    else if SameKey(s[0].key, k, cs) then Some(0)
    else
      match FindKey(s[1..], k, cs)
      case None => None
      case Some(i) => Some(i + 1)
  }

  function RemoveAt<T>(s: seq<T>, i: nat): (r: seq<T>)
    requires i < |s|
    ensures |r| == |s| - 1
    ensures forall j :: 0 <= j < |r| ==> r[j] == if j < i then s[j] else s[j + 1]
  {
    s[..i] + s[i + 1..]
  }

  function InsertAt<T>(s: seq<T>, i: nat, x: T): (r: seq<T>)
    requires i <= |s|
    ensures |r| == |s| + 1
    ensures forall j :: 0 <= j < |r| ==> r[j] == if j < i then s[j] else if j == i then x else s[j - 1]
  {
    s[..i] + [x] + s[i..]
  }

  // ---------------------------------------------------------------- heights and duplication

  function Max(a: nat, b: nat): nat {
    if a < b then b else a
  }

  /** Nesting below a node; a leaf and an empty container have height 0. */
  function Height(v: Json): nat
    decreases v, 1
  {
    match v
    case Array(items) => if items == [] then 0 else 1 + ItemsHeight(items)
    case Object(ms) => if ms == [] then 0 else 1 + MembersHeight(ms)
    case _ => 0
  }

  function ItemsHeight(s: seq<Json>): (h: nat)
    ensures forall i :: 0 <= i < |s| ==> Height(s[i]) <= h
    decreases s, 0
  {
    if s == [] then 0 else Max(Height(s[0]), ItemsHeight(s[1..]))
  }

  function MembersHeight(s: Members): (h: nat)
    ensures forall i :: 0 <= i < |s| ==> Height(s[i].value) <= h
    decreases s, 0
  {
    if s == [] then 0 else Max(Height(s[0].value), MembersHeight(s[1..]))
  }

  lemma {:induction false} MembersHeightBound(s: Members, h: nat)
    requires forall i :: 0 <= i < |s| ==> Height(s[i].value) <= h
    ensures MembersHeight(s) <= h
  {
    if s != [] {
      MembersHeightBound(s[1..], h);
    }
  }

  lemma {:induction false} ItemsHeightBound(s: seq<Json>, h: nat)
    requires forall i :: 0 <= i < |s| ==> Height(s[i]) <= h
    ensures ItemsHeight(s) <= h
  {
    if s != [] {
      ItemsHeightBound(s[1..], h);
    }
  }

  /** cJSON_Duplicate with recursion: it gives up past the circular-reference limit. */
  function DuplicateRec(v: Json, depth: nat): (r: Option<Json>)
    decreases v, 1
  {
    match v
    case Array(items) =>
      (match DuplicateItems(items, depth)
       case None => None
       case Some(c) => Some(Array(c)))
    case Object(ms) =>
      (match DuplicateMembers(ms, depth)
       case None => None
       case Some(c) => Some(Object(c)))
    case _ => Some(v)
  }

  function DuplicateItems(s: seq<Json>, depth: nat): (r: Option<seq<Json>>)
    decreases s, 0
  {
    if s == [] then Some([])
    else if depth >= CIRCULAR_LIMIT then None
    else
      match DuplicateRec(s[0], depth + 1)
      case None => None
      case Some(c) =>
        match DuplicateItems(s[1..], depth)
        case None => None
        case Some(rest) => Some([c] + rest)
  }

  function DuplicateMembers(s: Members, depth: nat): (r: Option<Members>)
    decreases s, 0
  {
    if s == [] then Some([])
    else if depth >= CIRCULAR_LIMIT then None
    else
      match DuplicateRec(s[0].value, depth + 1)
      case None => None
      case Some(c) =>
        match DuplicateMembers(s[1..], depth)
        case None => None
        case Some(rest) => Some([Member(s[0].key, c)] + rest)
  }

  function Duplicate(v: Json): Option<Json> {
    DuplicateRec(v, 0)
  }

  lemma {:induction false} DuplicateExact(v: Json, depth: nat)
    requires depth <= CIRCULAR_LIMIT
    ensures DuplicateRec(v, depth) == if depth + Height(v) <= CIRCULAR_LIMIT then Some(v) else None
    decreases v, 1
  {
    match v
    case Array(items) => DuplicateItemsExact(items, depth);
    case Object(ms) => DuplicateMembersExact(ms, depth);
    case _ =>
  }

  lemma {:induction false} DuplicateItemsExact(s: seq<Json>, depth: nat)
    requires depth <= CIRCULAR_LIMIT
    ensures DuplicateItems(s, depth) ==
            if s == [] || depth + 1 + ItemsHeight(s) <= CIRCULAR_LIMIT then Some(s) else None
    decreases s, 0
  {
    if s != [] && depth < CIRCULAR_LIMIT {
      DuplicateExact(s[0], depth + 1);
      DuplicateItemsExact(s[1..], depth);
      assert [s[0]] + s[1..] == s;
    }
  }

  lemma {:induction false} DuplicateMembersExact(s: Members, depth: nat)
    requires depth <= CIRCULAR_LIMIT
    ensures DuplicateMembers(s, depth) ==
            if s == [] || depth + 1 + MembersHeight(s) <= CIRCULAR_LIMIT then Some(s) else None
    decreases s, 0
  {
    if s != [] && depth < CIRCULAR_LIMIT {
      DuplicateExact(s[0].value, depth + 1);
      DuplicateMembersExact(s[1..], depth);
      assert [s[0]] + s[1..] == s;
    }
  }

  /** A copy is the same tree, and it exists exactly when the tree is at most 10000 levels high. */
  lemma DuplicateIsIdentity(v: Json)
    ensures Duplicate(v) == if Height(v) <= CIRCULAR_LIMIT then Some(v) else None
  {
    DuplicateExact(v, 0);
  }

  // ---------------------------------------------------------------- mathematical value

  datatype Value =
    | VInvalid
    | VFalse
    | VTrue
    | VNull
    | VNumber(d: real)
    | VString(s: Text)
    | VArray(items: seq<Value>)
    | VObject(members: map<Text, Value>)

  function Abs(v: Json): Value {
    match v
    case Invalid => VInvalid
    case False => VFalse
    case True => VTrue
    case Null => VNull
    case Number(d) => VNumber(d)
    case String(s) => VString(s)
    case Array(items) => VArray(AbsItems(items))
    case Object(ms) => VObject(AbsMembers(ms))
  }

  function AbsItems(s: seq<Json>): (r: seq<Value>)
    ensures |r| == |s|
    ensures forall i :: 0 <= i < |s| ==> r[i] == Abs(s[i])
  {
    seq(|s|, i requires 0 <= i < |s| => Abs(s[i]))
  }

  function AbsMembers(s: Members): map<Text, Value> {
    if s == [] then map[] else AbsMembers(s[1..])[s[0].key := Abs(s[0].value)]
  }

  function KeySet<T>(s: seq<Member<T>>): set<Text> {
    set i | 0 <= i < |s| :: s[i].key
  }

  lemma {:induction false} AbsMembersKeys(s: Members)
    ensures AbsMembers(s).Keys == KeySet(s)
  {
    if s != [] {
      AbsMembersKeys(s[1..]);
      assert KeySet(s) == KeySet(s[1..]) + {s[0].key} by {
        forall k | k in KeySet(s) ensures k in KeySet(s[1..]) + {s[0].key} {
          var i :| 0 <= i < |s| && s[i].key == k;
          if i > 0 { assert s[1..][i - 1].key == k; }
        }
        forall k | k in KeySet(s[1..]) ensures k in KeySet(s) {
          var i :| 0 <= i < |s| - 1 && s[1..][i].key == k;
          assert s[i + 1].key == k;
        }
      }
    }
  }

  lemma {:induction false} AbsMembersAt(s: Members, i: nat)
    requires i < |s| && UniqueKeys(s, true)
    ensures s[i].key in AbsMembers(s) && AbsMembers(s)[s[i].key] == Abs(s[i].value)
  {
    if i > 0 {
      assert forall a, b :: 0 <= a < b < |s| - 1 ==> s[1..][a] == s[a + 1] && s[1..][b] == s[b + 1];
      AbsMembersAt(s[1..], i - 1);
      assert s[0].key != s[i].key;
    }
  }

  /** With distinct keys, the value of an object does not depend on the order of its members. */
  lemma AbsMembersOfPermutation(s: Members, t: Members)
    requires UniqueKeys(s, true) && UniqueKeys(t, true)
    requires multiset(s) == multiset(t)
    ensures AbsMembers(s) == AbsMembers(t)
  {
    AbsMembersKeys(s);
    AbsMembersKeys(t);
    KeysOfPermutation(s, t);
    forall k | k in AbsMembers(s) ensures AbsMembers(s)[k] == AbsMembers(t)[k] {
      var i :| 0 <= i < |s| && s[i].key == k;
      assert s[i] in multiset(t);
      var j :| 0 <= j < |t| && t[j] == s[i];
      AbsMembersAt(s, i);
      AbsMembersAt(t, j);
    }
  }

  lemma KeysOfPermutation<T>(s: seq<Member<T>>, t: seq<Member<T>>)
    requires multiset(s) == multiset(t)
    ensures KeySet(s) == KeySet(t)
  {
    forall i | 0 <= i < |s| ensures s[i].key in KeySet(t) {
      assert s[i] in multiset(t);
      var j :| 0 <= j < |t| && t[j] == s[i];
      assert t[j].key == s[i].key;
    }
    forall i | 0 <= i < |t| ensures t[i].key in KeySet(s) {
      assert t[i] in multiset(s);
      var j :| 0 <= j < |s| && s[j] == t[i];
      assert s[j].key == t[i].key;
    }
  }

  // ---------------------------------------------------------------- well-formed trees

  /** Distinct keys in every object of the tree. */
  predicate KeysUnique(v: Json, cs: bool) {
    match v
    case Array(items) => forall i :: 0 <= i < |items| ==> KeysUnique(items[i], cs)
    case Object(ms) => UniqueKeys(ms, cs) && forall i :: 0 <= i < |ms| ==> KeysUnique(ms[i].value, cs)
    case _ => true
  }

  lemma {:induction false} UniqueFoldedTree(v: Json)
    requires KeysUnique(v, false)
    ensures KeysUnique(v, true)
  {
    match v
    case Array(items) =>
      forall i | 0 <= i < |items| ensures KeysUnique(items[i], true) { UniqueFoldedTree(items[i]); }
    case Object(ms) =>
      UniqueFoldedIsUnique(ms);
      forall i | 0 <= i < |ms| ensures KeysUnique(ms[i].value, true) { UniqueFoldedTree(ms[i].value); }
    case _ =>
  }

  /** Every number of the tree is an exact C int. */
  predicate IntNumbers(v: Json) {
    match v
    case Number(d) => IsInt(d)
    case Array(items) => forall i :: 0 <= i < |items| ==> IntNumbers(items[i])
    case Object(ms) => forall i :: 0 <= i < |ms| ==> IntNumbers(ms[i].value)
    case _ => true
  }
}
