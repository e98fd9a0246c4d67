/**
  The doubly linked child list of a cJSON node, relinked in place.

  `next` ends in null; `prev` is the inverse of `next` inside the list and the
  first child's `prev` points at the last one, so that appending is constant time.
  The ghost field `children` is the list as a sequence, and `Valid` ties it to the links.
  `Listed` asks only for the links: it holds of every list that a sort leaves, and
  `TailOf` is what the head's `prev` then finds.
 */
module JsonList {
  import opened Basics
  import opened JsonTree
  import opened JsonSort
  import opened JsonTails

  class Node {
    var next: Node?
    var prev: Node?
    var child: Node?
    var key: Option<Text>

    ghost var children: seq<Node>

    constructor ()
      ensures next == null && prev == null && child == null && key == None && children == []
    {
      next, prev, child, key, children := null, null, null, None, [];
    }

    ghost predicate Listed()
      reads this, children
    {
      this !in children && Chain(child, children)
    }

    ghost predicate Valid()
      reads this, children
    {
      && Listed()
      && (children != [] ==> children[0].prev == children[|children| - 1])
    }
  }

  /** `s` is the acyclic list that starts at `head`: next links forward, prev links back. */
  ghost predicate Chain(head: Node?, s: seq<Node>)
    reads s
  {
    && Distinct(s)
    && (if s == [] then head == null else head == s[0] && s[|s| - 1].next == null)
    && (forall i {:trigger s[i].next} :: 0 <= i < |s| - 1 ==> s[i].next == s[i + 1])
    && (forall i {:trigger s[i].prev} :: 0 < i < |s| ==> s[i].prev == s[i - 1])
  }

  ghost predicate Distinct(s: seq<Node>) {
    forall i, j :: 0 <= i < j < |s| ==> s[i] != s[j]
  }

  ghost function Family(parent: Node?): set<Node>
    reads parent
  {
    if parent == null then {} else {parent} + set n | n in parent.children
  }

  /** get_array_item: the child at an index, or null past the end. */
  method GetArrayItem(parent: Node?, index: nat) returns (r: Node?)
    requires parent != null ==> parent.Valid()
    ensures r == if parent != null && index < |parent.children| then parent.children[index] else null
  {
    if parent == null {
      return null;
    }
    var i: nat := index;
    r := parent.child;
    ghost var at := 0;
    while r != null && i > 0
      invariant at + i == index && at <= |parent.children|
      invariant r == if at < |parent.children| then parent.children[at] else null
      invariant r == null ==> at == |parent.children|
      decreases i
    {
      i := i - 1;
      r := r.next;
      at := at + 1;
    }
  }

  ghost function IndexIn(s: seq<Node>, n: Node): (i: nat)
    ensures i <= |s| && (i < |s| <==> n in s) && (i < |s| ==> s[i] == n)
    ensures forall j :: 0 <= j < i ==> s[j] != n
  {
    if s == [] || s[0] == n then 0 else 1 + IndexIn(s[1..], n)
  }

  /** What a pointer at the head of the list `s` finds. */
  ghost function TailIn(s: seq<Node>, p: Node?): Tail {
    if s == [] || p == null then Lost
    else if p in s then Points(IndexIn(s, p))
    else Astray
  }

  /** What the head's `prev` finds. */
  ghost function TailOf(parent: Node): Tail
    reads parent, parent.children
  {
    TailIn(parent.children, if parent.children == [] then null else parent.children[0].prev)
  }

  /** A list is well formed exactly if its links are and its tail is found. */
  lemma ValidIsSound(parent: Node)
    ensures parent.Valid() <==> parent.Listed() && Sound(TailOf(parent), |parent.children|)
  {
  }

  lemma IndexInDistinct(s: seq<Node>, k: nat)
    requires k < |s| && Distinct(s)
    ensures IndexIn(s, s[k]) == k
  {
  }

  /** The list and its tail once a node has been hung behind `p`. */
  lemma HungBehind(s: seq<Node>, p: Node, item: Node)
    requires s != [] && Distinct(s) && item !in s
    ensures var r := Appended(s, TailIn(s, p), item);
            && Distinct(r) && r != [] && r[0] == s[0]
            && TailIn(r, item) == TailAppended(TailIn(s, p), |s|)
            && (p in s ==> |r| >= 2 && r[|r| - 1] == item && r[|r| - 2] == p && r[..|r| - 1] <= s)
            && (p !in s ==> r == s)
  {
    var r := Appended(s, TailIn(s, p), item);
    if p in s {
      IndexInDistinct(r, |r| - 1);
    }
  }

  lemma TailOfRemoval(s: seq<Node>, p: Node?, i: nat, q: Node?)
    requires i < |s| && Distinct(s)
    requires q == if 0 < i == |s| - 1 then s[i - 1] else p
    ensures TailIn(RemoveAt(s, i), q) == TailRemoved(TailIn(s, p), |s|, i)
  {
    var r, t := RemoveAt(s, i), TailIn(s, p);
    assert forall k :: 0 <= k < |r| ==> r[k] == s[if k < i then k else k + 1];
    assert Distinct(r);
    if r != [] {
      if i == |s| - 1 {
        IndexInDistinct(r, |r| - 1);
      } else if t.Points? && t.to != i {
        var k := if t.to < i then t.to else t.to - 1;
        assert r[k] == p;
        IndexInDistinct(r, k);
      }
    }
  }

  /** The node, if any, that the head's `prev` names: appending writes to it. */
  ghost function Named(parent: Node?): set<Node>
    reads parent, if parent == null then {} else {parent.child}
  {
    if parent == null || parent.child == null || parent.child.prev == null then {} else {parent.child.prev}
  }

  /**
    add_item_to_array: append behind the node that the head's `prev` names.

    If that is not the last child, the call still reports success: with no such node the
    item is linked nowhere, and with an earlier child the children behind it are cut off.
   */
  method AddItemToArray(parent: Node?, item: Node?) returns (ok: bool)
    requires parent != null ==> parent.Listed()
    requires parent != null && item != null ==> item !in parent.children
    requires parent != null && item != null && parent.children != [] ==> item.next == null
    modifies Family(parent), Named(parent), item
    ensures ok == (item != null && parent != null && parent != item)
    ensures ok ==> parent.Listed()
    ensures ok ==> parent.children == Appended(old(parent.children), old(TailOf(parent)), item)
    ensures ok ==> TailOf(parent) == TailAppended(old(TailOf(parent)), |old(parent.children)|)
    ensures ok && old(parent.Valid()) ==> parent.Valid() && parent.children == old(parent.children) + [item]
    ensures !ok && parent != null ==> unchanged(parent) && unchanged(parent.children)
  {
    if item == null || parent == null || parent == item {
      return false;
    }
    AppendedExactly(parent.children, TailOf(parent), item);
    ValidIsSound(parent);
    var child := parent.child;
    if child == null {
      parent.child := item;
      item.prev := item;
      item.next := null;
      parent.children := [item];
    } else if child.prev != null {
      HangBehind(parent, child.prev, item);
    }
    ValidIsSound(parent);
    return true;
  }

  /** suffix_object, and the head's `prev` moved to the new node. */
  method HangBehind(parent: Node, tail: Node, item: Node)
    requires parent.Listed() && parent.child != null && tail == parent.child.prev
    requires item !in parent.children && item != parent && item.next == null
    modifies parent, parent.child, tail, item
    ensures parent.Listed()
    ensures parent.children == Appended(old(parent.children), old(TailOf(parent)), item)
    ensures TailOf(parent) == TailAppended(old(TailOf(parent)), |old(parent.children)|)
  {
    hide Appended, IndexIn;
    ghost var s := parent.children;
    ghost var r := Appended(s, TailOf(parent), item);
    HungBehind(s, tail, item);
    tail.next := item;
    item.prev := tail;
    parent.child.prev := item;
    parent.children := r;
    assert forall k {:trigger r[k].next} :: 0 <= k < |r| - 1 ==> r[k].next == r[k + 1];
    assert forall k {:trigger r[k].prev} :: 0 < k < |r| ==> r[k].prev == r[k - 1];
  }

  /** The relinking of cJSON_DetachItemViaPointer for the child at ghost index `i`. */
  method Unlink(parent: Node, item: Node, ghost i: nat)
    requires parent.Listed() && i < |parent.children| && parent.children[i] == item
    modifies parent, parent.children
    ensures parent.Listed() && parent.children == RemoveAt(old(parent.children), i)
    ensures TailOf(parent) == TailRemoved(old(TailOf(parent)), |old(parent.children)|, i)
    ensures item.next == null && item.prev == null && item !in parent.children
  {
    ghost var s := parent.children;
    ghost var r := RemoveAt(s, i);
    ghost var p := s[0].prev;
    hide IndexIn, TailIn, TailRemoved;
    assert i + 1 < |s| ==> item.next == s[i + 1];
    assert i > 0 ==> item.prev == s[i - 1];
    assert item == parent.child <==> i == 0;
    assert Distinct(r) && item !in r && parent !in r;
    if item != parent.child {
      item.prev.next := item.next;
    }
    if item.next != null {
      item.next.prev := item.prev;
    }
    if item == parent.child {
      parent.child := item.next;
    } else if item.next == null {
      parent.child.prev := item.prev;
    }
    item.prev := null;
    item.next := null;
    parent.children := r;
    assert forall k {:trigger r[k].next} :: 0 <= k < |r| - 1 ==> r[k].next == r[k + 1];
    assert forall k {:trigger r[k].prev} :: 0 < k < |r| ==> r[k].prev == r[k - 1];
    assert r != [] ==> r[|r| - 1].next == null;
    TailOfRemoval(s, p, i, if r == [] then p else r[0].prev);
  }

  /**
    cJSON_DetachItemViaPointer: unlink a child; a node that is in no list is refused.
    Taking the last of several children out also repairs a tail that was off, and taking
    out the child that the head's `prev` names leaves it pointing out of the list.
   */
  method DetachItemViaPointer(parent: Node?, item: Node?) returns (r: Node?, ghost i: nat)
    requires parent != null ==> parent.Listed()
    requires parent != null && item != null ==> item in parent.children || (item.prev == null && item != parent.child)
    modifies Family(parent)
    ensures parent != null ==> parent.Listed()
    ensures parent != null && old(parent.Valid()) ==> parent.Valid()
    ensures parent != null && item != null && item in old(parent.children) ==>
              && i < |old(parent.children)|
              && TailOf(parent) == TailRemoved(old(TailOf(parent)), |old(parent.children)|, i)
    ensures parent != null && item != null && item in old(parent.children) ==>
              && r == item && item.next == null && item.prev == null && item !in parent.children
              && i < |old(parent.children)| && old(parent.children)[i] == item
              && parent.children == RemoveAt(old(parent.children), i)
    ensures parent == null || item == null || item !in old(parent.children) ==> r == null
    ensures parent != null && (item == null || item !in old(parent.children)) ==>
              parent.children == old(parent.children)
  {
    i := 0;
    if parent == null || item == null || (item != parent.child && item.prev == null) {
      return null, 0;
    }
    i :| 0 <= i < |parent.children| && parent.children[i] == item;
    ValidIsSound(parent);
    RemovalKeepsSound(TailOf(parent), |parent.children|, i);
    Unlink(parent, item, i);
    ValidIsSound(parent);
    return item, i;
  }

  /** The relinking shared by both insert functions: `newitem` goes in front of the child at ghost index `i`. */
  method LinkBefore(parent: Node, child: Node, newitem: Node, ghost i: nat)
    requires parent.Valid() && i < |parent.children| && parent.children[i] == child
    requires newitem !in parent.children && newitem != parent
    modifies parent, parent.children, newitem
    ensures parent.Valid() && parent.children == InsertAt(old(parent.children), i, newitem)
  {
    ghost var s := parent.children;
    ghost var r := InsertAt(s, i, newitem);
    assert i > 0 ==> child.prev == s[i - 1];
    assert child == parent.child <==> i == 0;
    assert Distinct(r) && parent !in r;
    newitem.next := child;
    newitem.prev := child.prev;
    child.prev := newitem;
    if child == parent.child {
      parent.child := newitem;
    } else {
      newitem.prev.next := newitem;
    }
    parent.children := r;
    assert forall k {:trigger r[k].next} :: 0 <= k < |r| - 1 ==> r[k].next == r[k + 1];
    assert forall k {:trigger r[k].prev} :: 0 < k < |r| ==> r[k].prev == r[k - 1];
    assert r[|r| - 1].next == null && r[0].prev == r[|r| - 1];
  }

  /** insert_item_in_array of cJSON_Utils: insert before an index, append at the end, refuse beyond it. */
  method InsertItemInArray(parent: Node, which: nat, newitem: Node) returns (ok: bool)
    requires parent.Valid() && newitem !in parent.children && newitem != parent
    requires newitem.next == null
    modifies Family(parent), newitem
    ensures parent.Valid()
    ensures ok == (which <= |old(parent.children)|)
    ensures parent.children == if ok then InsertAt(old(parent.children), which, newitem) else old(parent.children)
  {
    var child := parent.child;
    var w: nat := which;
    ghost var s := parent.children;
    ghost var at := 0;
    while child != null && w > 0
      invariant at + w == which && at <= |s|
      invariant child == if at < |s| then s[at] else null
      invariant child == null ==> at == |s|
      decreases w
    {
      child := child.next;
      w := w - 1;
      at := at + 1;
    }
    if w > 0 {
      return false;
    }
    if child == null {
      var added := AddItemToArray(parent, newitem);
      assert InsertAt(s, which, newitem) == s + [newitem];
      return true;
    }
    LinkBefore(parent, child, newitem, which);
    return true;
  }

  /** cJSON_InsertItemInArray: insert before an index, and append for any index past the end. */
  method InsertOrAppend(parent: Node, which: int, newitem: Node?) returns (ok: bool)
    requires parent.Valid()
    requires newitem != null ==> newitem !in parent.children && newitem != parent && newitem.next == null
    modifies Family(parent), newitem
    ensures parent.Valid()
    ensures ok == (which >= 0 && newitem != null)
    ensures parent.children ==
            if ok then InsertAt(old(parent.children),
                if which < |old(parent.children)| then which else |old(parent.children)|, newitem)
            else old(parent.children)
  {
    if which < 0 || newitem == null {
      return false;
    }
    ghost var s := parent.children;
    var afterInserted := GetArrayItem(parent, which);
    if afterInserted == null {
      ok := AddItemToArray(parent, newitem);
      assert InsertAt(s, |s|, newitem) == s + [newitem];
      return;
    }
    LinkBefore(parent, afterInserted, newitem, which);
    return true;
  }

  /** The relinking of cJSON_ReplaceItemViaPointer for the child at ghost index `i`. */
  method Relink(parent: Node, item: Node, replacement: Node, ghost i: nat)
    requires parent.Valid() && i < |parent.children| && parent.children[i] == item
    requires replacement !in parent.children && replacement != parent
    modifies parent, parent.children, replacement
    ensures parent.Valid() && parent.children == old(parent.children)[i := replacement]
    ensures item.next == null && item.prev == null && item !in parent.children
  {
    ghost var s := parent.children;
    ghost var r := s[i := replacement];
    assert i + 1 < |s| ==> item.next == s[i + 1];
    assert i > 0 ==> item.prev == s[i - 1];
    assert item == parent.child <==> i == 0;
    assert |s| == 1 <==> parent.child.prev == parent.child;
    assert Distinct(r) && item !in r && parent !in r;
    replacement.next := item.next;
    replacement.prev := item.prev;
    if replacement.next != null {
      replacement.next.prev := replacement;
    }
    if parent.child == item {
      if parent.child.prev == parent.child {
        replacement.prev := replacement;
      }
      parent.child := replacement;
    } else {
      if replacement.prev != null {
        replacement.prev.next := replacement;
      }
      if replacement.next == null {
        parent.child.prev := replacement;
      }
    }
    item.next := null;
    item.prev := null;
    parent.children := r;
    assert forall k {:trigger r[k].next} :: 0 <= k < |r| - 1 ==> r[k].next == r[k + 1];
    assert forall k {:trigger r[k].prev} :: 0 < k < |r| ==> r[k].prev == r[k - 1];
    assert r[|r| - 1].next == null && r[0].prev == r[|r| - 1];
  }

  /** cJSON_ReplaceItemViaPointer: put a node in the place of a child. */
  method ReplaceItemViaPointer(parent: Node?, item: Node?, replacement: Node?) returns (ok: bool, ghost i: nat)
    requires parent != null ==> parent.Valid()
    requires parent != null && item != null && parent.child != null ==> item in parent.children
    requires parent != null && replacement != null && replacement != item ==>
               replacement !in parent.children && replacement != parent
    modifies Family(parent), replacement
    ensures parent != null ==> parent.Valid()
    ensures ok == (parent != null && old(parent.child) != null && replacement != null && item != null)
    ensures parent != null && !ok ==> parent.children == old(parent.children)
    ensures ok ==> i < |old(parent.children)| && old(parent.children)[i] == item
                   && parent.children == old(parent.children)[i := replacement]
    ensures ok && replacement != item ==> item.next == null && item.prev == null && item !in parent.children
  {
    i := 0;
    if parent == null || parent.child == null || replacement == null || item == null {
      return false, 0;
    }
    i :| 0 <= i < |parent.children| && parent.children[i] == item;
    if replacement == item {
      return true, i;
    }
    Relink(parent, item, replacement, i);
    return true, i;
  }

  // ---------------------------------------------------------------- sort_list

  /** The keys of the nodes being sorted; the sort reads them and never changes one. */
  type KeyMap = map<Node, Text>

  ghost predicate Keyed(s: seq<Node>, km: KeyMap)
    reads s`key
  {
    forall i :: 0 <= i < |s| ==> s[i] in km && s[i].key == Some(km[s[i]])
  }

  ghost function Entry(n: Node, km: KeyMap): Member<Node> {
    Member(if n in km then km[n] else "", n)
  }

  /** The list as the members that the specification sort works on. */
  ghost function View(s: seq<Node>, km: KeyMap): (r: seq<Member<Node>>)
    ensures |r| == |s|
    ensures forall i :: 0 <= i < |s| ==> r[i] == Entry(s[i], km)
  {
    seq(|s|, i requires 0 <= i < |s| => Entry(s[i], km))
  }

  ghost predicate Apart(a: seq<Node>, b: seq<Node>) {
    forall i, j :: 0 <= i < |a| && 0 <= j < |b| ==> a[i] != b[j]
  }

  /** The test at the top of the sort: does the list strictly ascend already? */
  method IsAscending(list: Node, ghost s: seq<Node>, ghost km: KeyMap, cs: bool) returns (sorted: bool)
    requires Chain(list, s) && Keyed(s, km)
    ensures sorted == NeighboursAscend(View(s, km), cs)
  {
    var current: Node? := list;
    ghost var k := 0;
    while current != null && current.next != null && CompareStrings(current.key.value, current.next.key.value, cs) < 0
      invariant k < |s| && current == s[k]
      invariant forall i :: 0 <= i < k ==> Less(View(s, km)[i].key, View(s, km)[i + 1].key, cs)
      decreases |s| - k
    {
      assert s[k].next == s[k + 1];
      current := current.next;
      k := k + 1;
    }
    if current.next != null {
      assert s[k].next == s[k + 1];
    }
    return current.next == null;
  }

  /** The slow and fast pointers, then the cut: the second half starts at ceil(n/2). */
  method Split(list: Node, ghost s: seq<Node>) returns (second: Node)
    requires Chain(list, s) && |s| >= 2
    modifies s`next, s`prev
    ensures second == s[Middle(|s|)] && second.prev == null
    ensures Chain(list, s[..Middle(|s|)]) && Chain(second, s[Middle(|s|)..])
    ensures s[0].prev == old(s[0].prev)
  {
    var slow: Node? := list;
    var current: Node? := list;
    ghost var k := 0;
    while current != null
      invariant 0 <= k <= Middle(|s|)
      invariant slow == s[k]
      invariant current == if 2 * k < |s| then s[2 * k] else null
      invariant unchanged(s)
      decreases Middle(|s|) - k
    {
      assert s[k].next == s[k + 1];
      assert 2 * k < |s| - 1 ==> s[2 * k].next == s[2 * k + 1];
      assert 2 * k + 1 < |s| - 1 ==> s[2 * k + 1].next == s[2 * k + 2];
      slow := slow.next;
      current := current.next;
      if current != null {
        current := current.next;
      }
      k := k + 1;
    }
    second := slow;
    assert k == Middle(|s|) && second.prev == s[k - 1];
    second.prev.next := null;
    second.prev := null;
    assert forall i {:trigger s[k..][i].next} :: 0 <= i < |s| - k - 1 ==> s[k..][i].next == s[k..][i + 1];
    assert forall i {:trigger s[k..][i].prev} :: 0 < i < |s| - k ==> s[k..][i].prev == s[k..][i - 1];
    assert s[k..][|s| - k - 1] == s[|s| - 1];
  }

  lemma ViewSlice(s: seq<Node>, km: KeyMap, i: nat, j: nat)
    requires i <= j <= |s|
    ensures View(s[i..j], km) == View(s, km)[i..j]
  {
  }

  lemma ViewAppend(s: seq<Node>, t: seq<Node>, km: KeyMap)
    ensures View(s + t, km) == View(s, km) + View(t, km)
  {
  }

  /** The part of list `a` from position `i` on is still linked as it was. */
  ghost predicate Rest(a: seq<Node>, i: nat)
    reads a`next, a`prev
  {
    && i <= |a|
    && (i < |a| ==> a[|a| - 1].next == null)
    && (forall k {:trigger a[k].next} :: i <= k < |a| - 1 ==> a[k].next == a[k + 1])
    && (forall k {:trigger a[k].prev} :: i < k < |a| ==> a[k].prev == a[k - 1])
  }

  /** The merged prefix: linked inside, its last `next` still to be set. */
  ghost predicate Prefix(o: seq<Node>)
    reads o`next, o`prev
  {
    && Distinct(o)
    && (forall k {:trigger o[k].next} :: 0 <= k < |o| - 1 ==> o[k].next == o[k + 1])
    && (forall k {:trigger o[k].prev} :: 0 < k < |o| ==> o[k].prev == o[k - 1])
  }

  /** Every merged node comes from the consumed part of one of the two lists. */
  ghost predicate Consumed(o: seq<Node>, a: seq<Node>, i: nat, b: seq<Node>, j: nat)
    requires i <= |a| && j <= |b|
  {
    forall k :: 0 <= k < |o| ==> o[k] in a[..i] || o[k] in b[..j]
  }

  /** One turn of the merge loop: hang the next node of list `a` behind the merged prefix. */
  method Hang(tail: Node?, smaller: Node, ghost o: seq<Node>, ghost a: seq<Node>, ghost i: nat, ghost b: seq<Node>,
      ghost j: nat)
    requires i < |a| && j <= |b| && smaller == a[i]
    requires Distinct(a) && Distinct(b) && Apart(a, b) && Rest(a, i) && Rest(b, j)
    requires Prefix(o) && Consumed(o, a, i, b, j) && tail == if o == [] then null else o[|o| - 1]
    modifies if tail == null then {} else {tail}`next, smaller`prev
    ensures Rest(a, i + 1) && Rest(b, j)
    ensures Prefix(o + [smaller]) && Consumed(o + [smaller], a, i + 1, b, j)
    ensures o == [] ==> smaller.prev == old(smaller.prev)
    ensures smaller.next == if i + 1 < |a| then a[i + 1] else null
  {
    assert forall k :: 0 <= k < |o| ==> o[k] != smaller;
    if tail != null {
      tail.next := smaller;
      smaller.prev := tail;
    }
    assert a[..i + 1] == a[..i] + [smaller];
  }

  /** Hang the rest of one list behind the merged prefix. */
  method AppendRest(ghost o: seq<Node>, ghost rest: seq<Node>, tail: Node, head: Node) returns (ghost r: seq<Node>)
    requires Prefix(o) && Rest(rest, 0) && Distinct(rest) && Apart(o, rest)
    requires o != [] && tail == o[|o| - 1] && rest != [] && head == rest[0]
    modifies tail`next, head`prev
    ensures r == o + rest && Chain(o[0], r)
    ensures o[0].prev == old(o[0].prev)
  {
    tail.next := head;
    head.prev := tail;
    r := o + rest;
    assert Distinct(r);
    assert r[|r| - 1] == rest[|rest| - 1];
  }

  lemma MergeTakesFirst<T>(m: seq<Member<T>>, v: seq<Member<T>>, x: seq<Member<T>>, y: seq<Member<T>>, cs: bool)
    requires x != [] && y != [] && Less(x[0].key, y[0].key, cs) && v + Merge(x, y, cs) == m
    ensures v + [x[0]] + Merge(x[1..], y, cs) == m
  {
  }

  lemma MergeTakesSecond<T>(m: seq<Member<T>>, v: seq<Member<T>>, x: seq<Member<T>>, y: seq<Member<T>>, cs: bool)
    requires x != [] && y != [] && !Less(x[0].key, y[0].key, cs) && v + Merge(x, y, cs) == m
    ensures v + [y[0]] + Merge(x, y[1..], cs) == m
  {
  }

  /** `o` is merged, `a` and `b` are consumed up to `i` and `j`: what is left completes the merge. */
  ghost predicate Merging(o: seq<Node>, a: seq<Node>, i: nat, b: seq<Node>, j: nat, km: KeyMap, cs: bool)
    requires i <= |a| && j <= |b|
  {
    View(o, km) + Merge(View(a, km)[i..], View(b, km)[j..], cs) == Merge(View(a, km), View(b, km), cs)
  }

  lemma MergingStarts(a: seq<Node>, b: seq<Node>, km: KeyMap, cs: bool)
    ensures Merging([], a, 0, b, 0, km, cs)
  {
    assert View(a, km)[0..] == View(a, km) && View(b, km)[0..] == View(b, km);
  }

  lemma MergingFirst(o: seq<Node>, a: seq<Node>, i: nat, b: seq<Node>, j: nat, km: KeyMap, cs: bool)
    requires i < |a| && j < |b| && Merging(o, a, i, b, j, km, cs)
    requires Less(Entry(a[i], km).key, Entry(b[j], km).key, cs)
    ensures Merging(o + [a[i]], a, i + 1, b, j, km, cs)
  {
    var va, vb := View(a, km), View(b, km);
    ViewAppend(o, [a[i]], km);
    assert View([a[i]], km) == [va[i]];
    MergeTakesFirst(Merge(va, vb, cs), View(o, km), va[i..], vb[j..], cs);
    assert va[i..][1..] == va[i + 1..];
  }

  lemma MergingSecond(o: seq<Node>, a: seq<Node>, i: nat, b: seq<Node>, j: nat, km: KeyMap, cs: bool)
    requires i < |a| && j < |b| && Merging(o, a, i, b, j, km, cs)
    requires !Less(Entry(a[i], km).key, Entry(b[j], km).key, cs)
    ensures Merging(o + [b[j]], a, i, b, j + 1, km, cs)
  {
    var va, vb := View(a, km), View(b, km);
    ViewAppend(o, [b[j]], km);
    assert View([b[j]], km) == [vb[j]];
    MergeTakesSecond(Merge(va, vb, cs), View(o, km), va[i..], vb[j..], cs);
    assert vb[j..][1..] == vb[j + 1..];
  }

  lemma MergingEnds(o: seq<Node>, a: seq<Node>, i: nat, b: seq<Node>, j: nat, km: KeyMap, cs: bool)
    requires i <= |a| && j <= |b| && Merging(o, a, i, b, j, km, cs)
    ensures j == |b| ==> View(o + a[i..], km) == Merge(View(a, km), View(b, km), cs)
    ensures i == |a| ==> View(o + b[j..], km) == Merge(View(a, km), View(b, km), cs)
  {
    ViewAppend(o, a[i..], km);
    ViewAppend(o, b[j..], km);
    ViewSlice(a, km, i, |a|);
    ViewSlice(b, km, j, |b|);
  }

  lemma RestIsList(o: seq<Node>, a: seq<Node>, i: nat, b: seq<Node>, j: nat)
    requires i <= |a| && j <= |b| && Distinct(a) && Apart(a, b) && Rest(a, i) && Consumed(o, a, i, b, j)
    ensures Rest(a[i..], 0) && Distinct(a[i..]) && Apart(o, a[i..])
  {
    var t := a[i..];
    assert forall k {:trigger t[k].next} :: 0 <= k < |t| - 1 ==> t[k].next == a[i + k].next == t[k + 1];
    assert forall k {:trigger t[k].prev} :: 0 < k < |t| ==> t[k].prev == a[i + k].prev == t[k - 1];
    assert t != [] ==> t[|t| - 1] == a[|a| - 1];
  }

  /** One turn of the merge loop. */
  method TakeSmaller(first: Node, second: Node, last: Node?, ghost o: seq<Node>, ghost a: seq<Node>, ghost i: nat,
                     ghost b: seq<Node>, ghost j: nat, ghost km: KeyMap, cs: bool)
    returns (smaller: Node, nextFirst: Node?, nextSecond: Node?, ghost i2: nat, ghost j2: nat)
    requires i < |a| && j < |b| && first == a[i] && second == b[j]
    requires Distinct(a) && Distinct(b) && Apart(a, b) && Keyed(a, km) && Keyed(b, km) && Rest(a, i) && Rest(b, j)
    requires Prefix(o) && Consumed(o, a, i, b, j) && Merging(o, a, i, b, j, km, cs)
    requires last == if o == [] then null else o[|o| - 1]
    modifies if last == null then {} else {last}`next, first`prev, second`prev
    ensures i <= i2 <= |a| && j <= j2 <= |b| && i2 + j2 == i + j + 1
    ensures nextFirst == (if i2 < |a| then a[i2] else null) && nextSecond == if j2 < |b| then b[j2] else null
    ensures Rest(a, i2) && Rest(b, j2) && Prefix(o + [smaller])
    ensures Consumed(o + [smaller], a, i2, b, j2) && Merging(o + [smaller], a, i2, b, j2, km, cs)
    ensures o == [] ==> (smaller == first || smaller == second) && smaller.prev == old(smaller.prev)
    ensures o != [] ==> o[0].prev == old(o[0].prev)
  {
    hide Merging, CompareStrings;
    i2, j2, nextFirst, nextSecond := i, j, first, second;
    if CompareStrings(first.key.value, second.key.value, cs) < 0 {
      smaller := first;
      MergingFirst(o, a, i, b, j, km, cs);
      Hang(last, smaller, o, a, i, b, j);
      nextFirst := first.next;
      i2 := i + 1;
    } else {
      smaller := second;
      MergingSecond(o, a, i, b, j, km, cs);
      Hang(last, smaller, o, b, j, a, i);
      nextSecond := second.next;
      j2 := j + 1;
    }
  }


  /** The merge loop: relink smaller heads first, ties from the second list, until one list is used up. */
  method MergeLoop(head1: Node, head2: Node, ghost a: seq<Node>, ghost b: seq<Node>, ghost km: KeyMap, cs: bool)
    returns (first: Node?, second: Node?, merged: Node, tail: Node, ghost o: seq<Node>, ghost i: nat, ghost j: nat)
    requires Chain(head1, a) && Chain(head2, b) && Keyed(a, km) && Keyed(b, km) && Apart(a, b)
    modifies a`next, a`prev, b`next, b`prev
    ensures i <= |a| && j <= |b| && (i == |a| <==> j < |b|)
    ensures first == (if i < |a| then a[i] else null) && second == if j < |b| then b[j] else null
    ensures Rest(a, i) && Rest(b, j) && Prefix(o) && Consumed(o, a, i, b, j) && Merging(o, a, i, b, j, km, cs)
    ensures o != [] && merged == o[0] && tail == o[|o| - 1]
    ensures (merged == head1 || merged == head2) && merged.prev == old(merged.prev)
  {
    hide Merging;
    first, second := head1, head2;
    var start: Node?, last: Node? := null, null;
    i, j, o := 0, 0, [];
    MergingStarts(a, b, km, cs);
    while first != null && second != null
      invariant i <= |a| && j <= |b| && i + j < |a| + |b|
      invariant first == if i < |a| then a[i] else null
      invariant second == if j < |b| then b[j] else null
      invariant Rest(a, i) && Rest(b, j) && Prefix(o) && Consumed(o, a, i, b, j) && Merging(o, a, i, b, j, km, cs)
      invariant start == if o == [] then null else o[0]
      invariant last == if o == [] then null else o[|o| - 1]
      invariant o == [] ==> i == 0 && j == 0 && head1.prev == old(head1.prev) && head2.prev == old(head2.prev)
      invariant o != [] ==> (start == head1 || start == head2) && start.prev == old(start.prev)
      decreases |a| + |b| - i - j
    {
      var smaller;
      smaller, first, second, i, j := TakeSmaller(first, second, last, o, a, i, b, j, km, cs);
      o := o + [smaller];
      if start == null {
        start := smaller;
      }
      last := smaller;
    }
    merged, tail := start, last;
  }

  /** The two appends after the merge loop. */
  method MergeLists(head1: Node, head2: Node, ghost a: seq<Node>, ghost b: seq<Node>, ghost km: KeyMap, cs: bool)
    returns (result: Node, ghost r: seq<Node>)
    requires Chain(head1, a) && Chain(head2, b) && Keyed(a, km) && Keyed(b, km) && Apart(a, b)
    modifies a`next, a`prev, b`next, b`prev
    ensures Chain(result, r) && View(r, km) == Merge(View(a, km), View(b, km), cs)
    ensures result.prev == old(result.prev)
    ensures result == head1 || result == head2
  {
    ghost var i, j, o;
    var first, second, tail;
    first, second, result, tail, o, i, j := MergeLoop(head1, head2, a, b, km, cs);
    MergingEnds(o, a, i, b, j, km, cs);
    if first != null {
      RestIsList(o, a, i, b, j);
      r := AppendRest(o, a[i..], tail, first);
    } else {
      RestIsList(o, b, j, a, i);
      r := AppendRest(o, b[j..], tail, second);
    }
  }

  lemma SortedNodes(r: seq<Node>, s: seq<Node>, km: KeyMap, cs: bool)
    requires View(r, km) == JsonSort.SortList(View(s, km), cs)
    ensures |r| == |s| && forall k :: 0 <= k < |r| ==> r[k] in s
  {
    SortPermutes(View(s, km), cs);
    forall k | 0 <= k < |r| ensures r[k] in s {
      assert View(r, km)[k] in multiset(View(s, km));
      var j :| 0 <= j < |s| && View(s, km)[j] == View(r, km)[k];
      assert s[j] == r[k];
    }
  }

  lemma SortStep<T>(v: seq<Member<T>>, cs: bool)
    requires |v| >= 2 && !NeighboursAscend(v, cs)
    ensures JsonSort.SortList(v, cs) ==
            Merge(JsonSort.SortList(v[..Middle(|v|)], cs), JsonSort.SortList(v[Middle(|v|)..], cs), cs)
  {
  }

  lemma SortUnfold(s: seq<Node>, km: KeyMap, cs: bool)
    requires |s| >= 2 && !NeighboursAscend(View(s, km), cs)
    ensures JsonSort.SortList(View(s, km), cs) ==
            Merge(JsonSort.SortList(View(s[..Middle(|s|)], km), cs),
                  JsonSort.SortList(View(s[Middle(|s|)..], km), cs), cs)
  {
    hide JsonSort.SortList, Merge, NeighboursAscend;
    var m, v := Middle(|s|), View(s, km);
    SortStep(v, cs);
    assert View(s[..m], km) == v[..m];
    assert View(s[m..], km) == v[m..];
  }

  /**
    sort_list: the in-place mergesort over the `next` chain. The result is the same
    nodes, relinked in the order of the specification sort.

    The last clause records what happens to the head's `prev`, which the sort never
    sets: it survives when the head stays first and is null otherwise.
   */
  method SortInPlace(list: Node?, ghost s: seq<Node>, ghost km: KeyMap, cs: bool)
    returns (result: Node?, ghost r: seq<Node>)
    requires Chain(list, s) && Keyed(s, km)
    modifies s`next, s`prev
    ensures Chain(result, r) && View(r, km) == JsonSort.SortList(View(s, km), cs)
    ensures s != [] ==> result != null && result.prev == if result == list then old(s[0].prev) else null
    decreases |s|, 2
  {
    if list == null || list.next == null {
      return list, s;
    }
    var sorted := IsAscending(list, s, km, cs);
    if sorted {
      return list, s;
    }
    result, r := SortHalves(list, s, km, cs);
  }

  lemma SubsetsApart(a: seq<Node>, b: seq<Node>, ra: seq<Node>, rb: seq<Node>)
    requires Apart(a, b)
    requires forall k :: 0 <= k < |ra| ==> ra[k] in a
    requires forall k :: 0 <= k < |rb| ==> rb[k] in b
    ensures Apart(ra, rb)
  {
  }

  /** The cut, the two recursive sorts and the merge, for a list that is not yet ascending. */
  method SortHalves(list: Node, ghost s: seq<Node>, ghost km: KeyMap, cs: bool)
    returns (result: Node, ghost r: seq<Node>)
    requires Chain(list, s) && Keyed(s, km) && |s| >= 2 && !NeighboursAscend(View(s, km), cs)
    modifies s`next, s`prev
    ensures Chain(result, r) && View(r, km) == JsonSort.SortList(View(s, km), cs)
    ensures result.prev == if result == list then old(s[0].prev) else null
    decreases |s|, 1
  {
    hide View, Entry, JsonSort.SortList, NeighboursAscend, Merge, Middle;
    SortUnfold(s, km, cs);
    var second := Split(list, s);
    ghost var a, b := s[..Middle(|s|)], s[Middle(|s|)..];
    assert Apart(a, b);
    result, r := SortBoth(list, second, a, b, km, cs);
  }

  method SortBoth(list: Node, second: Node, ghost a: seq<Node>, ghost b: seq<Node>, ghost km: KeyMap, cs: bool)
    returns (result: Node, ghost r: seq<Node>)
    requires Chain(list, a) && Chain(second, b) && Keyed(a, km) && Keyed(b, km) && Apart(a, b)
    modifies a`next, a`prev, b`next, b`prev
    ensures Chain(result, r)
    ensures View(r, km) == Merge(JsonSort.SortList(View(a, km), cs), JsonSort.SortList(View(b, km), cs), cs)
    ensures result.prev == if result == list then old(list.prev) else if result == second then old(second.prev)
            else null
    decreases |a| + |b|, 0
  {
    hide View, Entry, JsonSort.SortList, Merge;
    ghost var ra, rb;
    var head1, head2;
    head1, ra := SortInPlace(list, a, km, cs);
    SortedNodes(ra, a, km, cs);
    SubsetsApart(a, b, ra, b);
    head2, rb := SortInPlace(second, b, km, cs);
    SortedNodes(rb, b, km, cs);
    SubsetsApart(a, b, ra, rb);
    result, r := MergeLists(head1, head2, ra, rb, km, cs);
  }

  lemma SortedPlaces(r: seq<Node>, s: seq<Node>, km: KeyMap, cs: bool)
    requires View(r, km) == JsonSort.SortList(View(s, km), cs)
    ensures |r| == |s| == |Order(View(s, km), cs)|
    ensures forall i :: 0 <= i < |s| ==>
              Order(View(s, km), cs)[i].value < |s| && r[i] == s[Order(View(s, km), cs)[i].value]
  {
    hide Order;
    var o := Order(View(s, km), cs);
    SortByOrder(View(s, km), cs);
    forall i | 0 <= i < |s| ensures r[i] == s[o[i].value] {
      assert View(r, km)[i] == View(s, km)[o[i].value];
    }
  }

  lemma TailOfSort(r: seq<Node>, s: seq<Node>, p: Node?, q: Node?, km: KeyMap, cs: bool)
    requires View(r, km) == JsonSort.SortList(View(s, km), cs) && Distinct(s) && Distinct(r)
    requires |r| == |s| && (s != [] ==> q == if r[0] == s[0] then p else null)
    ensures TailIn(r, q) == TailSorted(View(s, km), TailIn(s, p), cs)
  {
    hide JsonSort.SortList, View, Order;
    var o, t := Order(View(s, km), cs), TailIn(s, p);
    SortedPlaces(r, s, km, cs);
    OrderPermutes(View(s, km), cs);
    if s != [] && p != null {
      if p in s {
        assert r[PlaceOf(o, t.to)] == p;
      }
      forall i | 0 <= i < |r| ensures r[i] in s {
      }
    }
  }

  /**
    sort_object: sort the children of a node by key. The members end up in order, and
    the head's `prev` is what it was if the head stayed and null if it did not. So the
    list stays well formed exactly when the sort moved neither the first nor the last
    child; JsonTails.SortKeepsTailExactly says it in terms of the keys.
   */
  method SortObject(parent: Node?, ghost km: KeyMap, cs: bool)
    requires parent != null ==> parent.Listed() && Keyed(parent.children, km)
    modifies Family(parent)
    ensures parent != null ==>
              var s, r := old(parent.children), parent.children;
              && parent.Listed()
              && View(r, km) == JsonSort.SortList(View(s, km), cs)
              && |r| == |s|
              && TailOf(parent) == TailSorted(View(s, km), old(TailOf(parent)), cs)
              && (s != [] ==> r[0].prev == if r[0] == s[0] then old(s[0].prev) else null)
              && (old(parent.Valid()) ==>
                    (parent.Valid() <==> s == [] || (r[0] == s[0] && r[|r| - 1] == s[|s| - 1])))
  {
    hide Keyed, JsonSort.SortList, View, TailIn, TailSorted;
    if parent == null {
      return;
    }
    ghost var s := parent.children;
    ghost var p := if s == [] then null else s[0].prev;
    ghost var r;
    parent.child, r := SortInPlace(parent.child, s, km, cs);
    parent.children := r;
    SortedNodes(r, s, km, cs);
    TailOfSort(r, s, p, if r == [] then null else r[0].prev, km, cs);
  }
}
