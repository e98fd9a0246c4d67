/**
  JSON trees as they are in memory: every object carries what its first member's `prev`
  finds, and a comparison, which sorts in place, moves it. `Erase` forgets the pointers.
  The list of an array is never sorted, so its tail is always found.
 */
module JsonItems {
  import opened Basics
  import opened JsonTree
  import opened JsonSort
  import opened JsonTails
  import opened JsonPointer

  datatype Item =
    | InvalidItem
    | FalseItem
    | TrueItem
    | NullItem
    | NumberItem(d: real)
    | StringItem(s: Text)
    | ArrayItem(items: seq<Item>)
    | ObjectItem(members: seq<Member<Item>>, tail: Tail)

  function Erase(t: Item): Json {
    match t
    case InvalidItem => Invalid
    case FalseItem => False
    case TrueItem => True
    case NullItem => Null
    case NumberItem(d) => Number(d)
    case StringItem(s) => String(s)
    case ArrayItem(items) => Array(EraseItems(items))
    case ObjectItem(ms, _) => Object(EraseMembers(ms))
  }

  function EraseItems(s: seq<Item>): (r: seq<Json>)
    ensures |r| == |s|
    ensures forall i :: 0 <= i < |s| ==> r[i] == Erase(s[i])
  {
    seq(|s|, i requires 0 <= i < |s| => Erase(s[i]))
  }

  function EraseMembers(s: seq<Member<Item>>): (r: Members)
    ensures |r| == |s|
    ensures forall i :: 0 <= i < |s| ==> r[i] == Member(s[i].key, Erase(s[i].value))
  {
    seq(|s|, i requires 0 <= i < |s| => Member(s[i].key, Erase(s[i].value)))
  }

  /** The tree as the parser or cJSON_Duplicate builds it: every tail is found. */
  function Fresh(v: Json): Item {
    match v
    case Invalid => InvalidItem
    case False => FalseItem
    case True => TrueItem
    case Null => NullItem
    case Number(d) => NumberItem(d)
    case String(s) => StringItem(s)
    case Array(items) => ArrayItem(seq(|items|, i requires 0 <= i < |items| => Fresh(items[i])))
    case Object(ms) =>
      ObjectItem(seq(|ms|, i requires 0 <= i < |ms| => Member(ms[i].key, Fresh(ms[i].value))),
                 if ms == [] then Lost else Points(|ms| - 1))
  }

  /** Every list of the tree can be appended to. */
  predicate Intact(t: Item) {
    match t
    case ArrayItem(items) => forall i :: 0 <= i < |items| ==> Intact(items[i])
    case ObjectItem(ms, tail) => Sound(tail, |ms|) && forall i :: 0 <= i < |ms| ==> Intact(ms[i].value)
    case _ => true
  }

  lemma {:induction false} FreshIsIntact(v: Json)
    ensures Erase(Fresh(v)) == v && Intact(Fresh(v))
  {
    match v
    case Array(items) =>
      forall i | 0 <= i < |items| ensures Erase(Fresh(items[i])) == items[i] && Intact(Fresh(items[i])) {
        FreshIsIntact(items[i]);
      }
      assert EraseItems(Fresh(v).items) == items;
    case Object(ms) =>
      forall i | 0 <= i < |ms| ensures Erase(Fresh(ms[i].value)) == ms[i].value && Intact(Fresh(ms[i].value)) {
        FreshIsIntact(ms[i].value);
      }
      assert EraseMembers(Fresh(v).members) == ms;
    case _ =>
  }

  // ---------------------------------------------------------------- places in the tree

  function ItemChild(t: Item, i: nat): (c: Item)
    requires i < ChildCount(Erase(t))
    ensures Erase(c) == ChildAt(Erase(t), i)
  {
    match t
    case ArrayItem(items) => items[i]
    case ObjectItem(ms, _) => ms[i].value
  }

  function SetItem(t: Item, i: nat, c: Item): (r: Item)
    requires i < ChildCount(Erase(t))
    ensures Erase(r) == SetChild(Erase(t), i, Erase(c))
  {
    match t
    case ArrayItem(items) =>
      assert EraseItems(items[i := c]) == EraseItems(items)[i := Erase(c)];
      ArrayItem(items[i := c])
    case ObjectItem(ms, tail) =>
      assert EraseMembers(ms[i := Member(ms[i].key, c)]) == EraseMembers(ms)[i := Member(ms[i].key, Erase(c))];
      ObjectItem(ms[i := Member(ms[i].key, c)], tail)
  }

  function ItemAt(t: Item, l: Location): (r: Item)
    requires IsLocation(Erase(t), l)
    ensures Erase(r) == At(Erase(t), l)
    decreases |l|
  {
    if l == [] then t else ItemAt(ItemChild(t, l[0]), l[1..])
  }

  lemma {:induction false} IntactBelow(t: Item, l: Location)
    requires IsLocation(Erase(t), l) && Intact(t)
    ensures Intact(ItemAt(t, l))
    decreases |l|
  {
    if l != [] {
      IntactBelow(ItemChild(t, l[0]), l[1..]);
    }
  }

  // ---------------------------------------------------------------- erasing and lists

  lemma SortErases(s: seq<Member<Item>>, cs: bool)
    ensures EraseMembers(SortList(s, cs)) == SortList(EraseMembers(s), cs)
  {
    assert Relabel(s, Erase) == EraseMembers(s);
    SortRelabels(s, Erase, cs);
    assert Relabel(SortList(s, cs), Erase) == EraseMembers(SortList(s, cs));
  }

  lemma ErasedTail(s: seq<Item>)
    requires s != []
    ensures EraseItems(s)[0] == Erase(s[0]) && EraseItems(s)[1..] == EraseItems(s[1..])
  {
  }

  lemma ErasedMembersTail(s: seq<Member<Item>>)
    requires s != []
    ensures EraseMembers(s)[0] == Member(s[0].key, Erase(s[0].value)) && EraseMembers(s)[1..] == EraseMembers(s[1..])
  {
  }

  lemma {:induction false} FindErases(s: seq<Member<Item>>, k: Text, cs: bool)
    ensures FindKey(EraseMembers(s), k, cs) == FindKey(s, k, cs)
  {
    if s != [] {
      ErasedMembersTail(s);
      FindErases(s[1..], k, cs);
    }
  }

  // ---------------------------------------------------------------- compare_json in place

  /** The document's side of compare_json, tails included. */
  function ComparedItem(a: Item, b: Json, cs: bool): Item
    decreases Height(Erase(a)), 1
  {
    match (a, b)
    case (ArrayItem(x), Array(y)) => ArrayItem(ComparedInArray(x, y, cs, Height(Erase(a))))
    case (ObjectItem(x, tail), Object(y)) =>
      SortErases(x, cs);
      SortKeepsHeight(EraseMembers(x), cs);
      ObjectItem(ComparedInObject(SortList(x, cs), SortList(y, cs), cs, Height(Erase(a))), TailSorted(x, tail, cs))
    case _ => a
  }

  function ComparedInArray(a: seq<Item>, b: seq<Json>, cs: bool, h: nat): seq<Item>
    requires a == [] || ItemsHeight(EraseItems(a)) < h
    decreases h, 0, |a|
  {
    if a == [] || b == [] then a
    else
      ErasedTail(a);
      [ComparedItem(a[0], b[0], cs)]
      + if CompareJson(Erase(a[0]), b[0], cs) then ComparedInArray(a[1..], b[1..], cs, h) else a[1..]
  }

  function ComparedInObject(a: seq<Member<Item>>, b: Members, cs: bool, h: nat): seq<Member<Item>>
    requires a == [] || MembersHeight(EraseMembers(a)) < h
    decreases h, 0, |a|
  {
    if a == [] || b == [] || CompareStrings(a[0].key, b[0].key, cs) != 0 then a
    else
      ErasedMembersTail(a);
      [Member(a[0].key, ComparedItem(a[0].value, b[0].value, cs))]
      + if CompareJson(Erase(a[0].value), b[0].value, cs) then ComparedInObject(a[1..], b[1..], cs, h) else a[1..]
  }

  /** The comparison in memory does to the tree what `Compared` says. */
  lemma {:induction false} ComparedErases(a: Item, b: Json, cs: bool)
    ensures Erase(ComparedItem(a, b, cs)) == Compared(Erase(a), b, cs)
    decreases Height(Erase(a)), 1
  {
    match (a, b)
    case (ArrayItem(x), Array(y)) => ComparedArrayErases(x, y, cs, Height(Erase(a)));
    case (ObjectItem(x, tail), Object(y)) =>
      SortErases(x, cs);
      SortKeepsHeight(EraseMembers(x), cs);
      ComparedObjectErases(SortList(x, cs), SortList(y, cs), cs, Height(Erase(a)));
    case _ =>
  }

  lemma {:induction false} ComparedArrayErases(a: seq<Item>, b: seq<Json>, cs: bool, h: nat)
    requires a == [] || ItemsHeight(EraseItems(a)) < h
    ensures EraseItems(ComparedInArray(a, b, cs, h)) == ComparedItems(EraseItems(a), b, cs, h)
    decreases h, 0, |a|
  {
    if a != [] && b != [] {
      ErasedTail(a);
      ComparedErases(a[0], b[0], cs);
      ComparedArrayErases(a[1..], b[1..], cs, h);
      var r := ComparedInArray(a, b, cs, h);
      ErasedTail(r);
      assert EraseItems(r) == [Erase(r[0])] + EraseItems(r[1..]);
    }
  }

  lemma {:induction false} ComparedObjectErases(a: seq<Member<Item>>, b: Members, cs: bool, h: nat)
    requires a == [] || MembersHeight(EraseMembers(a)) < h
    ensures EraseMembers(ComparedInObject(a, b, cs, h)) == ComparedMembers(EraseMembers(a), b, cs, h)
    decreases h, 0, |a|
  {
    if a != [] && b != [] && CompareStrings(a[0].key, b[0].key, cs) == 0 {
      ErasedMembersTail(a);
      ComparedErases(a[0].value, b[0].value, cs);
      ComparedObjectErases(a[1..], b[1..], cs, h);
      var r := ComparedInObject(a, b, cs, h);
      ErasedMembersTail(r);
      assert EraseMembers(r) == [Member(r[0].key, Erase(r[0].value))] + EraseMembers(r[1..]);
    }
  }
}
