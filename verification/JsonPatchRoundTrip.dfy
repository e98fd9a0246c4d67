/**
  The JSON Patch round trip: the patches generated from one tree to another, applied to
  a copy of the first, give a tree equal to the second up to member order.
 */
module JsonPatchRoundTrip {
  import opened Basics
  import opened Decimals
  import opened JsonTree
  import opened JsonObjects
  import opened JsonSort
  import opened JsonPointer
  import opened JsonPatch

  // ---------------------------------------------------------------- applying edits

  /** An edit applied directly, without its detour through a patch object. */
  function ApplyEdit(root: Json, e: Edit): Applied {
    ApplyOp(root, OpcodeOf(e.op), e.path, e.value, None, true)
  }

  function ApplyEdits(root: Json, es: seq<Edit>): Applied
    decreases |es|
  {
    if es == [] then Applied(0, root)
    else
      var a := ApplyEdit(root, es[0]);
      if a.status != 0 then a else ApplyEdits(a.root, es[1..])
  }

  predicate Writable(e: Edit) {
    e.value.Some? ==> Height(e.value.value) <= CIRCULAR_LIMIT
  }

  lemma ApplyComposed(root: Json, e: Edit)
    requires Writable(e)
    ensures ApplyPatch(root, Compose(e), true) == ApplyEdit(root, e)
  {
    hide Compose, ItemOf, ApplyOp;
    ComposedItems(e);
  }

  lemma NamesDiffer()
    ensures "op" != "path" && "op" != "value" && "op" != "from" && "path" != "value" && "path" != "from" &&
            "value" != "from"
  {
    assert |"op"| == 2 && |"path"| == 4 && |"from"| == 4 && |"value"| == 5;
    assert "path"[0] == 'p' && "from"[0] == 'f';
  }

  /** What a patch object says under each of its names. */
  lemma ComposedItems(e: Edit)
    requires Writable(e)
    ensures Compose(e).Object?
    ensures ItemOf(Compose(e), "op", true) == Some(String(e.op)) &&
            ItemOf(Compose(e), "path", true) == Some(String(e.path))
    ensures ItemOf(Compose(e), "value", true) == e.value && ItemOf(Compose(e), "from", true) == None
  {
    hide FindKey, Duplicate;
    NamesDiffer();
    var ms := Compose(e).members;
    if e.value.Some? {
      DuplicateIsIdentity(e.value.value);
      assert ms[2] == Member("value", e.value.value);
    }
    assert ms[0] == Member("op", String(e.op)) && ms[1] == Member("path", String(e.path));
  }

  lemma {:induction false} ApplyComposedAll(root: Json, es: seq<Edit>)
    requires forall i :: 0 <= i < |es| ==> Writable(es[i])
    ensures ApplySeq(root, ComposeAll(es), true) == ApplyEdits(root, es)
    decreases |es|
  {
    if es != [] {
      ApplyComposed(root, es[0]);
      ApplyComposedAll(ApplyEdit(root, es[0]).root, es[1..]);
      assert ComposeAll(es)[1..] == ComposeAll(es[1..]);
    }
  }

  lemma {:induction false} ApplyAppend(root: Json, a: seq<Edit>, b: seq<Edit>)
    requires ApplyEdits(root, a).status == 0
    ensures ApplyEdits(root, a + b) == ApplyEdits(ApplyEdits(root, a).root, b)
    decreases |a|
  {
    if a == [] {
      assert a + b == b;
    } else {
      assert (a + b)[1..] == a[1..] + b;
      ApplyAppend(ApplyEdit(root, a[0]).root, a[1..], b);
    }
  }

  // ---------------------------------------------------------------- paths under a prefix

  function Shift(pre: Text, es: seq<Edit>): (r: seq<Edit>)
    ensures |r| == |es|
    ensures forall i :: 0 <= i < |es| ==> r[i] == es[i].(path := pre + es[i].path)
  {
    seq(|es|, i requires 0 <= i < |es| => es[i].(path := pre + es[i].path))
  }

  lemma ShiftAppend(pre: Text, a: seq<Edit>, b: seq<Edit>)
    ensures Shift(pre, a + b) == Shift(pre, a) + Shift(pre, b)
  {
  }

  /** Edits are generated with the path as a prefix and do not depend on it otherwise. */
  lemma {:induction false} EditsShift(pre: Text, p: Text, from: Json, to: Json)
    ensures Edits(pre + p, from, to, true) == Shift(pre, Edits(p, from, to, true))
    decreases Height(from), 1
  {
    match (from, to)
    case (Array(x), Array(y)) => ArrayEditsShift(pre, p, x, y, 0, Height(from));
    case (Object(x), Object(y)) =>
      SortKeepsHeight(x, true);
      ObjectEditsShift(pre, p, SortList(x, true), SortList(y, true), Height(from));
    case _ =>
  }

  lemma {:induction false} ArrayEditsShift(pre: Text, p: Text, from: seq<Json>, to: seq<Json>, index: nat, h: nat)
    requires from == [] || ItemsHeight(from) < h
    ensures ArrayEdits(pre + p, from, to, index, true, h) == Shift(pre, ArrayEdits(p, from, to, index, true, h))
    decreases h, 0, |from| + |to|
  {
    var sub := "/" + Decimal(index);
    assert (pre + p) + "/" + Decimal(index) == pre + (p + "/" + Decimal(index));
    assert (pre + p) + "/-" == pre + (p + "/-");
    if from != [] && to != [] {
      EditsShift(pre, p + "/" + Decimal(index), from[0], to[0]);
      ArrayEditsShift(pre, p, from[1..], to[1..], index + 1, h);
      ShiftAppend(pre, Edits(p + "/" + Decimal(index), from[0], to[0], true),
                  ArrayEdits(p, from[1..], to[1..], index + 1, true, h));
    } else if from != [] {
      ArrayEditsShift(pre, p, from[1..], to, index, h);
      ShiftAppend(pre, [Edit("remove", p + "/" + Decimal(index), None)], ArrayEdits(p, from[1..], to, index, true, h));
    } else if to != [] {
      ArrayEditsShift(pre, p, from, to[1..], index + 1, h);
      ShiftAppend(pre, [Edit("add", p + "/-", Some(to[0]))], ArrayEdits(p, from, to[1..], index + 1, true, h));
    }
  }

  lemma {:induction false} ObjectEditsShift(pre: Text, p: Text, from: Members, to: Members, h: nat)
    requires from == [] || MembersHeight(from) < h
    ensures ObjectEdits(pre + p, from, to, true, h) == Shift(pre, ObjectEdits(p, from, to, true, h))
    decreases h, 0, |from| + |to|
  {
    if from != [] || to != [] {
      var diff := if from == [] then 1 else if to == [] then -1 else CompareStrings(from[0].key, to[0].key, true);
      if diff == 0 {
        var k := from[0].key;
        assert (pre + p) + "/" + Encode(k) == pre + (p + "/" + Encode(k));
        EditsShift(pre, p + "/" + Encode(k), from[0].value, to[0].value);
        ObjectEditsShift(pre, p, from[1..], to[1..], h);
        ShiftAppend(pre, Edits(p + "/" + Encode(k), from[0].value, to[0].value, true),
                    ObjectEdits(p, from[1..], to[1..], true, h));
      } else if diff < 0 {
        var k := from[0].key;
        assert (pre + p) + "/" + Encode(k) == pre + (p + "/" + Encode(k));
        ObjectEditsShift(pre, p, from[1..], to, h);
        ShiftAppend(pre, [Edit("remove", p + "/" + Encode(k), None)], ObjectEdits(p, from[1..], to, true, h));
      } else {
        var k := to[0].key;
        assert (pre + p) + "/" + Encode(k) == pre + (p + "/" + Encode(k));
        ObjectEditsShift(pre, p, from, to[1..], h);
        ShiftAppend(pre, [Edit("add", p + "/" + Encode(k), Some(to[0].value))], ObjectEdits(p, from, to[1..], true, h));
      }
    }
  }

  // ---------------------------------------------------------------- descending into a child

  lemma {:induction false} LastSlashIs(p: Text, i: nat)
    requires i < |p| && p[i] == '/' && '/' !in p[i + 1..]
    ensures LastSlash(p) == Some(i)
  {
    if i + 1 < |p| {
      assert p[|p| - 1] == p[i + 1..][|p| - i - 2];
      var q := p[..|p| - 1];
      assert q[i + 1..] == p[i + 1..][..|p| - i - 2];
      LastSlashIs(q, i);
    }
  }

  lemma LastSlashOfSuffix(a: Text, b: Text)
    requires '/' in b
    ensures LastSlash(b).Some? && LastSlash(a + b) == Some(|a| + LastSlash(b).value)
  {
    var i := LastSlash(b).value;
    assert (a + b)[|a| + i + 1..] == b[i + 1..];
    LastSlashIs(a + b, |a| + i);
  }

  lemma SplitLastUnder(a: Text, rest: Text)
    requires rest != [] && rest[0] == '/'
    ensures SplitLast(rest).Some? && AtTokenEnd(SplitLast(rest).value.0)
    ensures SplitLast(a + rest) == Some((a + SplitLast(rest).value.0, SplitLast(rest).value.1))
  {
    LastSlashOfSuffix(a, rest);
    var i := LastSlash(rest).value;
    assert (a + rest)[..|a| + i] == a + rest[..i];
    assert (a + rest)[|a| + i + 1..] == rest[i + 1..];
  }

  /** The written token of the child leads to the child. */
  predicate Reachable(v: Json, i: nat) {
    && i < ChildCount(v)
    && (match v
        case Array(_) => i < SIZE_MOD
        case Object(ms) => forall j :: 0 <= j < i ==> ms[j].key != ms[i].key
        case _ => true)
  }

  lemma LocateChild(v: Json, i: nat, rest: Text)
    requires Reachable(v, i) && AtTokenEnd(rest)
    ensures Locate(v, "/" + Token(v, i) + rest, true) == Under([i], Locate(ChildAt(v, i), rest, true))
  {
    LocateToken(v, i, rest, true);
    ChildOfToken(v, i, rest, true);
  }

  lemma DetachBelow(v: Json, i: nat, rest: Text)
    requires Reachable(v, i) && rest != [] && rest[0] == '/'
    ensures var d := DetachPath(ChildAt(v, i), rest, true);
            DetachPath(v, "/" + Token(v, i) + rest, true) == (SetChild(v, i, d.0), d.1)
  {
    var pre := "/" + Token(v, i);
    SplitLastUnder(pre, rest);
    var parent := SplitLast(rest).value.0;
    LocateChild(v, i, parent);
    SetSameChild(v, i);
    match Locate(ChildAt(v, i), parent, true)
    case None =>
    case Some(l) => AtUnder(v, i, l);
  }

  lemma SetSameChild(v: Json, i: nat)
    requires i < ChildCount(v)
    ensures SetChild(v, i, ChildAt(v, i)) == v
  {
    match v
    case Array(items) => assert items[i := items[i]] == items;
    case Object(ms) => assert ms[i := Member(ms[i].key, ms[i].value)] == ms;
  }

  lemma AtUnder(v: Json, i: nat, l: Location)
    requires i < ChildCount(v) && IsLocation(ChildAt(v, i), l)
    ensures IsLocation(v, [i] + l) && At(v, [i] + l) == At(ChildAt(v, i), l)
    ensures forall x :: ReplaceAt(v, [i] + l, x) == SetChild(v, i, ReplaceAt(ChildAt(v, i), l, x))
  {
    assert ([i] + l)[1..] == l && ([i] + l)[0] == i;
  }

  lemma AddBelow(v: Json, i: nat, rest: Text, value: Json)
    requires Reachable(v, i) && rest != [] && rest[0] == '/'
    ensures var a := AddPath(ChildAt(v, i), rest, value, true);
            AddPath(v, "/" + Token(v, i) + rest, value, true) == Applied(a.status, SetChild(v, i, a.root))
  {
    var pre := "/" + Token(v, i);
    SplitLastUnder(pre, rest);
    var parent := SplitLast(rest).value.0;
    LocateChild(v, i, parent);
    SetSameChild(v, i);
    match Locate(ChildAt(v, i), parent, true)
    case None =>
    case Some(l) => AtUnder(v, i, l);
  }

  predicate Generated(e: Edit) {
    || (e.op == "remove" && e.value == None)
    || (e.op in ["add", "replace"] && e.value.Some? && Height(e.value.value) <= CIRCULAR_LIMIT)
  }

  lemma SetTwice(v: Json, i: nat, x: Json, y: Json)
    requires i < ChildCount(v)
    ensures SetChild(SetChild(v, i, x), i, y) == SetChild(v, i, y)
  {
    match v
    case Array(items) => assert items[i := x][i := y] == items[i := y];
    case Object(ms) => assert ms[i := Member(ms[i].key, x)][i := Member(ms[i].key, y)] == ms[i := Member(ms[i].key, y)];
  }

  lemma TokenKept(v: Json, i: nat, x: Json)
    requires Reachable(v, i)
    ensures Reachable(SetChild(v, i, x), i) && Token(SetChild(v, i, x), i) == Token(v, i)
  {
  }

  /** An edit below a child acts on the child alone. */
  lemma EditBelow(v: Json, i: nat, e: Edit)
    requires Reachable(v, i) && Generated(e) && e.path != [] && e.path[0] == '/'
    ensures var a := ApplyEdit(ChildAt(v, i), e);
            ApplyEdit(v, e.(path := "/" + Token(v, i) + e.path)) ==
            Applied(a.status, if a.status == 0 || e.op == "add" || e.op == "replace" then SetChild(v, i, a.root) else v)
  {
    hide DetachPath, AddPath, SetChild, ChildAt, Token, Duplicate;
    var c, path := ChildAt(v, i), "/" + Token(v, i) + e.path;
    DetachBelow(v, i, e.path);
    SetSameChild(v, i);
    var d := DetachPath(c, e.path, true);
    if e.op != "remove" {
      DuplicateIsIdentity(e.value.value);
      AddBelow(v, i, e.path, e.value.value);
      if e.op == "replace" && d.1.Some? {
        var w := SetChild(v, i, d.0);
        TokenKept(v, i, d.0);
        AddBelow(w, i, e.path, e.value.value);
        SetTwice(v, i, d.0, AddPath(d.0, e.path, e.value.value, true).root);
      }
    }
  }

  /** A run of edits below a child acts on the child alone. */
  lemma {:induction false} EditsBelow(v: Json, i: nat, es: seq<Edit>)
    requires Reachable(v, i)
    requires forall k :: 0 <= k < |es| ==> Generated(es[k]) && es[k].path != [] && es[k].path[0] == '/'
    requires ApplyEdits(ChildAt(v, i), es).status == 0
    ensures ApplyEdits(v, Shift("/" + Token(v, i), es)) ==
            Applied(0, SetChild(v, i, ApplyEdits(ChildAt(v, i), es).root))
    decreases |es|
  {
    SetSameChild(v, i);
    if es != [] {
      var pre := "/" + Token(v, i);
      EditBelow(v, i, es[0]);
      var a := ApplyEdit(ChildAt(v, i), es[0]);
      var w := SetChild(v, i, a.root);
      TokenKept(v, i, a.root);
      EditsBelow(w, i, es[1..]);
      assert Shift(pre, es)[1..] == Shift(pre, es[1..]);
      SetTwice(v, i, a.root, ApplyEdits(a.root, es[1..]).root);
    }
  }

  // ---------------------------------------------------------------- shape of the generated edits

  predicate AllUnder(es: seq<Edit>, pre: Text) {
    forall k :: 0 <= k < |es| ==> Generated(es[k]) && pre <= es[k].path
  }

  lemma UnderShorter(es: seq<Edit>, pre: Text, more: Text)
    requires AllUnder(es, pre + more)
    ensures AllUnder(es, pre)
  {
    forall k | 0 <= k < |es| ensures pre <= es[k].path {
      assert pre + more <= es[k].path;
      assert es[k].path[..|pre|] == (pre + more)[..|pre|] == pre;
    }
  }

  lemma UnderAppend(a: seq<Edit>, b: seq<Edit>, pre: Text)
    requires AllUnder(a, pre) && AllUnder(b, pre)
    ensures AllUnder(a + b, pre)
  {
  }

  predicate SameContainer(from: Json, to: Json) {
    (from.Array? && to.Array?) || (from.Object? && to.Object?)
  }

  lemma {:induction false} EditsShape(p: Text, from: Json, to: Json)
    requires Height(to) <= CIRCULAR_LIMIT
    ensures AllUnder(Edits(p, from, to, true), p)
    ensures SameContainer(from, to) ==> AllUnder(Edits(p, from, to, true), p + "/")
    ensures !SameContainer(from, to) ==> Edits(p, from, to, true) == [] || Edits(p, from, to, true) == Replace(p, to)
    decreases Height(from), 1
  {
    match (from, to)
    case (Array(x), Array(y)) =>
      ArrayEditsShape(p, x, y, 0, Height(from));
      UnderShorter(Edits(p, from, to, true), p, "/");
    case (Object(x), Object(y)) =>
      SortKeepsHeight(x, true);
      SortKeepsHeight(y, true);
      ObjectEditsShape(p, SortList(x, true), SortList(y, true), Height(from));
      UnderShorter(Edits(p, from, to, true), p, "/");
    case _ =>
  }

  lemma {:induction false} ArrayEditsShape(p: Text, from: seq<Json>, to: seq<Json>, index: nat, h: nat)
    requires from == [] || ItemsHeight(from) < h
    requires forall i :: 0 <= i < |to| ==> Height(to[i]) <= CIRCULAR_LIMIT
    ensures AllUnder(ArrayEdits(p, from, to, index, true, h), p + "/")
    decreases h, 0, |from| + |to|
  {
    var q := p + "/" + Decimal(index);
    assert p + "/" <= q && p + "/" <= p + "/-";
    if from != [] && to != [] {
      EditsShape(q, from[0], to[0]);
      UnderShorter(Edits(q, from[0], to[0], true), p + "/", Decimal(index));
      ArrayEditsShape(p, from[1..], to[1..], index + 1, h);
      UnderAppend(Edits(q, from[0], to[0], true), ArrayEdits(p, from[1..], to[1..], index + 1, true, h), p + "/");
    } else if from != [] {
      ArrayEditsShape(p, from[1..], to, index, h);
    } else if to != [] {
      ArrayEditsShape(p, from, to[1..], index + 1, h);
    }
  }

  lemma {:induction false} ObjectEditsShape(p: Text, from: Members, to: Members, h: nat)
    requires from == [] || MembersHeight(from) < h
    requires forall i :: 0 <= i < |to| ==> Height(to[i].value) <= CIRCULAR_LIMIT
    ensures AllUnder(ObjectEdits(p, from, to, true, h), p + "/")
    decreases h, 0, |from| + |to|
  {
    if from != [] || to != [] {
      var diff := if from == [] then 1 else if to == [] then -1 else CompareStrings(from[0].key, to[0].key, true);
      if diff == 0 {
        var q := p + "/" + Encode(from[0].key);
        EditsShape(q, from[0].value, to[0].value);
        UnderShorter(Edits(q, from[0].value, to[0].value, true), p + "/", Encode(from[0].key));
        ObjectEditsShape(p, from[1..], to[1..], h);
        UnderAppend(Edits(q, from[0].value, to[0].value, true), ObjectEdits(p, from[1..], to[1..], true, h), p + "/");
      } else if diff < 0 {
        assert p + "/" <= p + "/" + Encode(from[0].key);
        ObjectEditsShape(p, from[1..], to, h);
      } else {
        assert p + "/" <= p + "/" + Encode(to[0].key);
        ObjectEditsShape(p, from, to[1..], h);
      }
    }
  }

  // ---------------------------------------------------------------- acting on a direct child

  lemma SplitLastToken(tok: Text)
    requires '/' !in tok
    ensures SplitLast("/" + tok) == Some(("", tok))
  {
    var p := "/" + tok;
    assert p[..0] == "" && p[1..] == tok;
    LastSlashIs(p, 0);
  }

  /** A one-token path acts on the children of the root. */
  lemma DirectPath(v: Json, tok: Text, x: Json)
    requires '/' !in tok
    ensures DetachPath(v, "/" + tok, true) == DetachChild(v, DecodeInPlace(tok))
    ensures AddPath(v, "/" + tok, x, true) == AddChild(v, DecodeInPlace(tok), x, true)
  {
    SplitLastToken(tok);
  }

  lemma DecimalHasNoTilde(n: nat)
    ensures DecodeInPlace(Decimal(n)) == Decimal(n) && '/' !in Decimal(n)
  {
    DecodeWithoutTilde(Decimal(n), 0);
  }

  lemma DecimalDecodes(n: nat)
    requires n < SIZE_MOD
    ensures DecodeIndex(Decimal(n)) == Some(n) && Decimal(n) != "-"
  {
    hide DecodeIndex, DigitsValue;
    DecodeDecimal(n, []);
    assert Decimal(n) + [] == Decimal(n);
    assert IsDigit(Decimal(n)[0]);
  }

  lemma RemoveItem(items: seq<Json>, i: nat)
    requires i < |items| && i < SIZE_MOD
    ensures ApplyEdit(Array(items), Edit("remove", "/" + Decimal(i), None)) == Applied(0, Array(RemoveAt(items, i)))
  {
    hide DecodeIndex, DecodeInPlace, DetachPath, AddPath;
    DecimalHasNoTilde(i);
    DecimalDecodes(i);
    DirectPath(Array(items), Decimal(i), Json.Null);
  }

  lemma ReplaceItem(items: seq<Json>, i: nat, x: Json)
    requires i < |items| && i < SIZE_MOD && Height(x) <= CIRCULAR_LIMIT
    ensures ApplyEdit(Array(items), Edit("replace", "/" + Decimal(i), Some(x))) == Applied(0, Array(items[i := x]))
  {
    hide DecodeIndex, DecodeInPlace, DetachPath, AddPath, Duplicate;
    DecimalHasNoTilde(i);
    DecimalDecodes(i);
    DirectPath(Array(items), Decimal(i), x);
    DirectPath(Array(RemoveAt(items, i)), Decimal(i), x);
    DuplicateIsIdentity(x);
    assert InsertAt(RemoveAt(items, i), i, x) == items[i := x];
  }

  lemma AppendItem(items: seq<Json>, x: Json)
    requires Height(x) <= CIRCULAR_LIMIT
    ensures ApplyEdit(Array(items), Edit("add", "/-", Some(x))) == Applied(0, Array(items + [x]))
  {
    hide Duplicate;
    SplitLastToken("-");
    DecodeWithoutTilde("-", 0);
    DuplicateIsIdentity(x);
    assert "/" + "-" == "/-";
  }

  /** The first member whose key matches case-insensitively is this very member. */
  predicate FirstIs(ms: Members, m: Member<Json>) {
    FindKey(ms, m.key, false).Some? && ms[FindKey(ms, m.key, false).value] == m
  }

  lemma KeyPath(v: Json, k: Text, x: Json)
    requires Survives(k)
    ensures DetachPath(v, "/" + Encode(k), true) == DetachChild(v, k)
    ensures AddPath(v, "/" + Encode(k), x, true) == AddChild(v, k, x, true)
  {
    EncodeHasNoSlash(k);
    DirectPath(v, Encode(k), x);
    DecodeUndoesEncode(k);
  }

  lemma RemoveMember(ms: Members, m: Member<Json>)
    requires FirstIs(ms, m) && Survives(m.key)
    ensures ApplyEdit(Object(ms), Edit("remove", "/" + Encode(m.key), None)) ==
            Applied(0, Object(RemoveAt(ms, FindKey(ms, m.key, false).value)))
  {
    hide DetachPath, AddPath, FindKey;
    KeyPath(Object(ms), m.key, Json.Null);
  }

  lemma ReplaceMember(ms: Members, m: Member<Json>, x: Json)
    requires FirstIs(ms, m) && Survives(m.key) && UniqueKeys(ms, true) && Height(x) <= CIRCULAR_LIMIT
    ensures ApplyEdit(Object(ms), Edit("replace", "/" + Encode(m.key), Some(x))) ==
            Applied(0, Object(RemoveAt(ms, FindKey(ms, m.key, false).value) + [Member(m.key, x)]))
  {
    hide DetachPath, AddPath, FindKey, Duplicate;
    var i := FindKey(ms, m.key, false).value;
    var rest := RemoveAt(ms, i);
    KeyPath(Object(ms), m.key, x);
    KeyPath(Object(rest), m.key, x);
    DuplicateIsIdentity(x);
    forall j | 0 <= j < |rest| ensures !SameKey(rest[j].key, m.key, true) {
      assert rest[j] == if j < i then ms[j] else ms[j + 1];
    }
    assert FindKey(rest, m.key, true).None?;
  }

  lemma AddMember(ms: Members, k: Text, x: Json)
    requires Survives(k) && Height(x) <= CIRCULAR_LIMIT && k !in KeySet(ms)
    ensures ApplyEdit(Object(ms), Edit("add", "/" + Encode(k), Some(x))) == Applied(0, Object(ms + [Member(k, x)]))
  {
    hide DetachPath, AddPath, FindKey, Duplicate;
    KeyPath(Object(ms), k, x);
    DuplicateIsIdentity(x);
    assert forall j :: 0 <= j < |ms| ==> ms[j].key in KeySet(ms);
    assert FindKey(ms, k, true).None?;
  }

  // ---------------------------------------------------------------- first members stay first

  /** Members with a key other than `k` stay, and those that were the first match of their key still are. */
  ghost predicate KeepsOthers(ms: Members, rs: Members, k: Text) {
    && (forall n: Member<Json> :: n in ms && n.key != k ==> n in rs)
    && (forall n: Member<Json> :: FirstIs(ms, n) && n.key != k ==> FirstIs(rs, n))
  }

  lemma FirstMatchIs(ms: Members, k: Text, i: nat)
    requires i < |ms| && SameKey(ms[i].key, k, false)
    requires forall j :: 0 <= j < i ==> !SameKey(ms[j].key, k, false)
    ensures FindKey(ms, k, false) == Some(i)
  {
  }

  lemma OthersStay(ms: Members, i: nat)
    requires i < |ms|
    ensures forall n: Member<Json> :: n in ms && n != ms[i] ==> n in RemoveAt(ms, i)
  {
    var r := RemoveAt(ms, i);
    forall n: Member<Json> | n in ms && n != ms[i] ensures n in r {
      var j :| 0 <= j < |ms| && ms[j] == n;
      assert r[if j < i then j else j - 1] == n;
    }
  }

  lemma RemovalKeepsOthers(ms: Members, m: Member<Json>)
    requires FirstIs(ms, m)
    ensures KeepsOthers(ms, RemoveAt(ms, FindKey(ms, m.key, false).value), m.key)
  {
    hide SameKey;
    var i := FindKey(ms, m.key, false).value;
    var r := RemoveAt(ms, i);
    OthersStay(ms, i);
    forall n: Member<Json> | FirstIs(ms, n) && n.key != m.key ensures FirstIs(r, n) {
      var j := FindKey(ms, n.key, false).value;
      var k := if j < i then j else j - 1;
      assert r[k] == n;
      assert forall p :: 0 <= p < |r| ==> r[p] == ms[if p < i then p else p + 1];
      FirstMatchIs(r, n.key, k);
    }
  }

  lemma AppendKeepsOthers(ms: Members, rs: Members, x: Member<Json>, k: Text)
    requires KeepsOthers(ms, rs, k)
    ensures KeepsOthers(ms, rs + [x], k)
  {
    forall n: Member<Json> | FirstIs(ms, n) && n.key != k ensures FirstIs(rs + [x], n) {
      assert FirstIs(rs, n);
      FirstMatchIs(rs + [x], n.key, FindKey(rs, n.key, false).value);
    }
  }

  lemma UpdateKeepsOthers(ms: Members, i: nat, x: Json)
    requires i < |ms|
    ensures KeepsOthers(ms, ms[i := Member(ms[i].key, x)], ms[i].key)
  {
    var r := ms[i := Member(ms[i].key, x)];
    assert forall p :: 0 <= p < |r| ==> r[p].key == ms[p].key;
    forall n: Member<Json> | n in ms && n.key != ms[i].key ensures n in r {
      var j :| 0 <= j < |ms| && ms[j] == n;
      assert r[j] == n;
    }
    forall n: Member<Json> | FirstIs(ms, n) && n.key != ms[i].key ensures FirstIs(r, n) {
      FirstMatchIs(r, n.key, FindKey(ms, n.key, false).value);
    }
  }

  // ---------------------------------------------------------------- the round trip

  /** Some edit is made from the first value to the second. */
  predicate Differs(a: Json, b: Json) {
    Edits("", a, b, true) != []
  }

  /** A generated path that ends in this member's key names this member. */
  predicate Named(ms: Members, i: nat)
    requires i < |ms|
  {
    Survives(ms[i].key) && forall j :: 0 <= j < i ==> !SameKey(ms[j].key, ms[i].key, false)
  }

  /** An edit removes or replaces the member, so that its key ends a path. */
  predicate TakenOut(m: Member<Json>, goal: Members) {
    forall j :: 0 <= j < |goal| && goal[j].key == m.key ==>
      !SameContainer(m.value, goal[j].value) && Differs(m.value, goal[j].value)
  }

  /**
    The trees that patches lead between. Wherever two objects are compared their keys are
    distinct, and only the keys that end a path are asked to survive the decoding: those
    of members taken out, which also must have no earlier variant, and of members added.
   */
  predicate Editable(from: Json, to: Json)
    decreases from
  {
    match (from, to)
    case (Array(x), Array(y)) => |x| < SIZE_MOD && forall i :: 0 <= i < |x| && i < |y| ==> Editable(x[i], y[i])
    case (Object(x), Object(y)) =>
      && UniqueKeys(x, true) && UniqueKeys(y, true)
      && (forall i :: 0 <= i < |x| && TakenOut(x[i], y) ==> Named(x, i))
      && (forall j :: 0 <= j < |y| && y[j].key !in KeySet(x) ==> Survives(y[j].key))
      && (forall i, j :: 0 <= i < |x| && 0 <= j < |y| && x[i].key == y[j].key ==> Editable(x[i].value, y[j].value))
    case _ => true
  }

  /** What the walk needs of the members still to be visited on both sides. */
  predicate Walkable(fs: Members, ts: Members) {
    && (forall j :: 0 <= j < |ts| && ts[j].key !in KeySet(fs) ==> Survives(ts[j].key))
    && (forall i, j :: 0 <= i < |fs| && 0 <= j < |ts| && fs[i].key == ts[j].key ==> Editable(fs[i].value, ts[j].value))
    && (forall i :: 0 <= i < |fs| ==> IntNumbers(fs[i].value))
    && (forall j :: 0 <= j < |ts| ==> IntNumbers(ts[j].value) && Height(ts[j].value) <= CIRCULAR_LIMIT)
  }

  /** Every member of `fs` is in `cur`, and one that is to be taken out is what its path names. */
  predicate Ready(cur: Members, fs: Members, ts: Members) {
    && UniqueKeys(cur, true)
    && forall i :: 0 <= i < |fs| ==>
          fs[i] in cur && (TakenOut(fs[i], ts) ==> FirstIs(cur, fs[i]) && Survives(fs[i].key))
  }

  lemma FromSorted(s: Members, i: nat) returns (j: nat)
    requires i < |s|
    ensures j < |s| && SortList(s, true)[i] == s[j]
  {
    hide SortList;
    SortPermutes(s, true);
    assert SortList(s, true)[i] in multiset(s);
    j :| 0 <= j < |s| && s[j] == SortList(s, true)[i];
  }

  lemma ToSorted(s: Members, j: nat) returns (i: nat)
    requires j < |s|
    ensures i < |s| && SortList(s, true)[i] == s[j]
  {
    hide SortList;
    SortPermutes(s, true);
    assert s[j] in multiset(SortList(s, true));
    i :| 0 <= i < |s| && SortList(s, true)[i] == s[j];
  }

  lemma TakenOutSorted(m: Member<Json>, ts: Members)
    requires TakenOut(m, SortList(ts, true))
    ensures TakenOut(m, ts)
  {
    hide Differs, SortList, SameContainer;
    forall j | 0 <= j < |ts| && ts[j].key == m.key
      ensures !SameContainer(m.value, ts[j].value) && Differs(m.value, ts[j].value)
    {
      var k := ToSorted(ts, j);
    }
  }

  lemma StartsReady(x: Members, y: Members)
    requires UniqueKeys(x, true) && forall i :: 0 <= i < |x| && TakenOut(x[i], y) ==> Named(x, i)
    ensures Ready(x, SortList(x, true), SortList(y, true))
  {
    hide SortList, TakenOut, Survives, FindKey;
    var r := SortList(x, true);
    forall i | 0 <= i < |r|
      ensures r[i] in x && (TakenOut(r[i], SortList(y, true)) ==> FirstIs(x, r[i]) && Survives(r[i].key))
    {
      var j := FromSorted(x, i);
      if TakenOut(r[i], SortList(y, true)) {
        TakenOutSorted(r[i], y);
        FirstMatchIs(x, r[i].key, j);
      }
    }
  }

  lemma StartsWalkable(x: Members, y: Members)
    requires Editable(Object(x), Object(y)) && IntNumbers(Object(x)) && IntNumbers(Object(y))
    requires Height(Object(y)) <= CIRCULAR_LIMIT
    ensures Walkable(SortList(x, true), SortList(y, true))
  {
    hide SortList, Survives, TakenOut, Named;
    var fs, ts := SortList(x, true), SortList(y, true);
    SortPermutes(x, true);
    KeysOfPermutation(x, fs);
    forall j | 0 <= j < |ts|
      ensures IntNumbers(ts[j].value) && Height(ts[j].value) <= CIRCULAR_LIMIT
      ensures ts[j].key !in KeySet(fs) ==> Survives(ts[j].key)
    {
      var q := FromSorted(y, j);
    }
    forall i | 0 <= i < |fs| ensures IntNumbers(fs[i].value) {
      var p := FromSorted(x, i);
    }
    forall i, j | 0 <= i < |fs| && 0 <= j < |ts| && fs[i].key == ts[j].key ensures Editable(fs[i].value, ts[j].value) {
      var p := FromSorted(x, i);
      var q := FromSorted(y, j);
    }
  }

  lemma RoundTripItem(items: seq<Json>, i: nat, to: Json) returns (x: Json)
    requires i < |items| && i < SIZE_MOD && Editable(items[i], to)
    requires IntNumbers(items[i]) && IntNumbers(to) && Height(to) <= CIRCULAR_LIMIT
    ensures ApplyEdits(Array(items), Edits("/" + Decimal(i), items[i], to, true)) == Applied(0, Array(items[i := x]))
    ensures Abs(x) == Abs(to)
    decreases Height(items[i]), 3
  {
    hide Editable;
    var pre, es := "/" + Decimal(i), Edits("", items[i], to, true);
    EditsShift(pre, "", items[i], to);
    assert pre + "" == pre;
    EditsShape("", items[i], to);
    RoundTrip(items[i], to);
    if SameContainer(items[i], to) {
      assert "" + "/" == "/";
      EditsBelow(Array(items), i, es);
      x := ApplyEdits(items[i], es).root;
    } else if es == [] {
      x := items[i];
      assert items[i := x] == items;
    } else {
      x := to;
      ReplaceItem(items, i, to);
      assert Shift(pre, es) == [Edit("replace", pre, Some(to))];
    }
  }

  lemma RoundTripMember(ms: Members, m: Member<Json>, to: Json) returns (rs: Members)
    requires m in ms && UniqueKeys(ms, true) && Editable(m.value, to)
    requires !SameContainer(m.value, to) && Differs(m.value, to) ==> FirstIs(ms, m) && Survives(m.key)
    requires IntNumbers(m.value) && IntNumbers(to) && Height(to) <= CIRCULAR_LIMIT
    ensures ApplyEdits(Object(ms), Edits("/" + Encode(m.key), m.value, to, true)) == Applied(0, Object(rs))
    ensures UniqueKeys(rs, true) && AbsMembers(rs) == AbsMembers(ms)[m.key := Abs(to)] && KeepsOthers(ms, rs, m.key)
    decreases Height(m.value), 3
  {
    hide ApplyEdit, Edits, Abs, Survives, Encode, Editable;
    var i :| 0 <= i < |ms| && ms[i] == m;
    var pre, es := "/" + Encode(m.key), Edits("", m.value, to, true);
    EditsShift(pre, "", m.value, to);
    assert pre + "" == pre;
    EditsShape("", m.value, to);
    RoundTrip(m.value, to);
    AbsMembersAt(ms, i);
    UpdateKeepsOthers(ms, i, ApplyEdits(m.value, es).root);
    ValueOfUpdate(ms, i, ApplyEdits(m.value, es).root);
    if SameContainer(m.value, to) {
      assert "" + "/" == "/";
      EditsBelow(Object(ms), i, es);
      rs := ms[i := Member(ms[i].key, ApplyEdits(m.value, es).root)];
    } else if es == [] {
      rs := ms;
    } else {
      rs := RemoveAt(ms, FindKey(ms, m.key, false).value) + [Member(m.key, to)];
      ReplaceMember(ms, m, to);
      assert Shift(pre, es) == [Edit("replace", pre, Some(to))];
      MemberReplaced(ms, m, to);
    }
  }

  /** A replaced member ends up last. */
  lemma MemberReplaced(ms: Members, m: Member<Json>, to: Json)
    requires FirstIs(ms, m) && UniqueKeys(ms, true)
    ensures var rs := RemoveAt(ms, FindKey(ms, m.key, false).value) + [Member(m.key, to)];
            UniqueKeys(rs, true) && AbsMembers(rs) == AbsMembers(ms)[m.key := Abs(to)] && KeepsOthers(ms, rs, m.key)
  {
    hide Abs;
    var i := FindKey(ms, m.key, false).value;
    var rest := RemoveAt(ms, i);
    UniqueRemoval(ms, i);
    ValueOfRemoval(ms, i);
    ValueOfAppend(rest, Member(m.key, to));
    AppendUnique(rest, Member(m.key, to));
    RemovalKeepsOthers(ms, m);
    AppendKeepsOthers(ms, rest, Member(m.key, to), m.key);
  }

  lemma {:induction false} ArrayWalk(done: seq<Json>, from: seq<Json>, to: seq<Json>, h: nat)
    requires |done| + |from| < SIZE_MOD && (from == [] || ItemsHeight(from) < h)
    requires forall i :: 0 <= i < |from| ==> IntNumbers(from[i])
    requires forall i :: 0 <= i < |to| ==> IntNumbers(to[i]) && Height(to[i]) <= CIRCULAR_LIMIT
    requires forall i :: 0 <= i < |from| && i < |to| ==> Editable(from[i], to[i])
    ensures var a := ApplyEdits(Array(done + from), ArrayEdits("", from, to, |done|, true, h));
            a.status == 0 && a.root.Array? && AbsItems(a.root.items) == AbsItems(done) + AbsItems(to)
    decreases h, 0, |from| + |to|
  {
    hide ApplyEdit, Decimal, Abs, AbsItems, Edits, RemoveAt, Editable, IntNumbers;
    var items, n := done + from, |done|;
    assert "" + "/" + Decimal(n) == "/" + Decimal(n);
    if from == [] {
      assert items == done;
      GrowingWalk(done, to, h);
    } else if to == [] {
      RemoveItem(items, n);
      RemoveBetween(done, from);
      ArrayWalk(done, from[1..], to, h);
      var es := ArrayEdits("", from, to, n, true, h);
      assert es[1..] == ArrayEdits("", from[1..], to, n, true, h);
    } else {
      var x := RoundTripItem(items, n, to[0]);
      ArrayWalk(done + [x], from[1..], to[1..], h);
      ApplyAppend(Array(items), Edits("/" + Decimal(n), from[0], to[0], true),
                  ArrayEdits("", from[1..], to[1..], n + 1, true, h));
      assert items[n := x] == done + [x] + from[1..];
      AbsItemsShift(done, x, to);
    }
  }

  lemma RemoveBetween(done: seq<Json>, from: seq<Json>)
    requires from != []
    ensures RemoveAt(done + from, |done|) == done + from[1..]
  {
  }

  lemma AbsItemsShift(done: seq<Json>, x: Json, to: seq<Json>)
    requires to != [] && Abs(x) == Abs(to[0])
    ensures AbsItems(done + [x]) + AbsItems(to[1..]) == AbsItems(done) + AbsItems(to)
  {
  }

  /** The append loop, which needs no room below the index limit: its paths all end in "-". */
  lemma {:induction false} GrowingWalk(done: seq<Json>, to: seq<Json>, h: nat)
    requires forall i :: 0 <= i < |to| ==> Height(to[i]) <= CIRCULAR_LIMIT
    ensures var a := ApplyEdits(Array(done), ArrayEdits("", [], to, |done|, true, h));
            a.status == 0 && a.root.Array? && AbsItems(a.root.items) == AbsItems(done) + AbsItems(to)
    decreases |to|
  {
    hide ApplyEdit;
    if to != [] {
      AppendItem(done, to[0]);
      assert "" + "/-" == "/-";
      GrowingWalk(done + [to[0]], to[1..], h);
      var es := ArrayEdits("", [], to, |done|, true, h);
      assert es[1..] == ArrayEdits("", [], to[1..], |done| + 1, true, h);
      assert AbsItems(done + [to[0]]) + AbsItems(to[1..]) == AbsItems(done) + AbsItems(to);
    } else {
      assert AbsItems(done) + AbsItems(to) == AbsItems(done);
    }
  }

  /** The value an object has once the members `from` are gone and the members `to` are there. */
  ghost function Walked(cur: map<Text, Value>, from: Members, to: Members): map<Text, Value> {
    (cur - KeySet(from)) + AbsMembers(to)
  }

  /** One step of the walk past key `k`. */
  lemma ReadyStep(cur: Members, rs: Members, fs: Members, gs: Members, ts: Members, us: Members, k: Text)
    requires Ready(cur, fs, ts) && KeepsOthers(cur, rs, k) && UniqueKeys(rs, true)
    requires forall i :: 0 <= i < |gs| ==> gs[i] in fs && gs[i].key != k
    requires forall j :: 0 <= j < |ts| ==> ts[j] in us || ts[j].key == k
    ensures Ready(rs, gs, us)
  {
    hide Survives, FirstIs, Differs;
    forall i | 0 <= i < |gs| ensures gs[i] in rs &&
        (TakenOut(gs[i], us) ==> FirstIs(rs, gs[i]) && Survives(gs[i].key)) {
      var p :| 0 <= p < |fs| && fs[p] == gs[i];
      if TakenOut(gs[i], us) {
        forall j | 0 <= j < |ts| && ts[j].key == gs[i].key
          ensures !SameContainer(gs[i].value, ts[j].value) && Differs(gs[i].value, ts[j].value)
        {
          var q :| 0 <= q < |us| && us[q] == ts[j];
        }
      }
    }
  }

  lemma WalkableStep(fs: Members, gs: Members, ts: Members, us: Members, k: Text)
    requires Walkable(fs, ts)
    requires forall i :: 0 <= i < |gs| ==> gs[i] in fs
    requires forall j :: 0 <= j < |us| ==> us[j] in ts && us[j].key != k
    requires KeySet(fs) <= KeySet(gs) + {k}
    ensures Walkable(gs, us)
  {
    hide Survives, Editable, IntNumbers;
    forall j | 0 <= j < |us|
      ensures IntNumbers(us[j].value) && Height(us[j].value) <= CIRCULAR_LIMIT
      ensures us[j].key !in KeySet(gs) ==> Survives(us[j].key)
    {
      var q :| 0 <= q < |ts| && ts[q] == us[j];
    }
    forall i | 0 <= i < |gs| ensures IntNumbers(gs[i].value) {
      var p :| 0 <= p < |fs| && fs[p] == gs[i];
    }
    forall i, j | 0 <= i < |gs| && 0 <= j < |us| && gs[i].key == us[j].key ensures Editable(gs[i].value, us[j].value) {
      var p :| 0 <= p < |fs| && fs[p] == gs[i];
      var q :| 0 <= q < |ts| && ts[q] == us[j];
    }
  }

  lemma KeySetHead(fs: Members)
    requires fs != []
    ensures KeySet(fs) == {fs[0].key} + KeySet(fs[1..])
  {
    AbsMembersKeys(fs);
    AbsMembersKeys(fs[1..]);
  }

  lemma KeysAbove(k: Text, fs: Members)
    requires Ascending(fs, true) && (fs == [] || Less(k, fs[0].key, true))
    ensures k !in KeySet(fs)
  {
    forall i | 0 <= i < |fs| ensures fs[i].key != k {
      if fs[i].key == k {
        CompareZeroIsSameKey(k, k, true);
        if i > 0 {
          CompareTransitive(k, fs[0].key, fs[i].key, true);
        }
      }
    }
  }

  lemma WalkedSame(cur: map<Text, Value>, fs: Members, ts: Members)
    requires fs != [] && ts != [] && fs[0].key == ts[0].key
    requires fs[0].key !in KeySet(fs[1..]) && ts[0].key !in KeySet(ts[1..])
    ensures Walked(cur[fs[0].key := Abs(ts[0].value)], fs[1..], ts[1..]) == Walked(cur, fs, ts)
  {
    KeySetHead(fs);
    AbsMembersKeys(ts);
    AbsMembersKeys(ts[1..]);
  }

  lemma WalkedRemoved(cur: map<Text, Value>, fs: Members, ts: Members)
    requires fs != []
    ensures Walked(cur - {fs[0].key}, fs[1..], ts) == Walked(cur, fs, ts)
  {
    KeySetHead(fs);
  }

  lemma WalkedAdded(cur: map<Text, Value>, fs: Members, ts: Members)
    requires ts != [] && ts[0].key !in KeySet(fs) && ts[0].key !in KeySet(ts[1..])
    ensures Walked(cur[ts[0].key := Abs(ts[0].value)], fs, ts[1..]) == Walked(cur, fs, ts)
  {
    AbsMembersKeys(ts[1..]);
  }

  /** A key still to be added is not in the object yet, unless its old member is still to be visited. */
  predicate Fresh(cur: Members, fs: Members, ts: Members) {
    forall i :: 0 <= i < |ts| ==> ts[i].key !in KeySet(cur) || ts[i].key in KeySet(fs)
  }

  lemma FreshTail(cur: Members, rs: Members, fs: Members, gs: Members, ts: Members, us: Members, k: Text)
    requires Fresh(cur, fs, ts)
    requires forall i :: 0 <= i < |us| ==> us[i] in ts && us[i].key != k
    requires KeySet(rs) <= KeySet(cur) + {k} && KeySet(fs) <= KeySet(gs) + {k}
    ensures Fresh(rs, gs, us)
  {
    forall i | 0 <= i < |us| ensures us[i].key !in KeySet(rs) || us[i].key in KeySet(gs) {
      var j :| 0 <= j < |ts| && ts[j] == us[i];
      assert ts[j].key !in KeySet(cur) || ts[j].key in KeySet(fs);
    }
  }

  lemma AscendingTail(s: Members)
    requires Ascending(s, true) && s != []
    ensures Ascending(s[1..], true) && s[0].key !in KeySet(s[1..])
    ensures forall i :: 0 <= i < |s[1..]| ==> s[1..][i] in s && s[1..][i].key != s[0].key
  {
    forall i | 0 <= i < |s| - 1 ensures s[1..][i].key != s[0].key {
      assert Less(s[0].key, s[i + 1].key, true);
      CompareZeroIsSameKey(s[0].key, s[i + 1].key, true);
    }
  }

  lemma {:induction false} ObjectWalk(cur: Members, fs: Members, ts: Members, h: nat)
    requires fs == [] || MembersHeight(fs) < h
    requires Ready(cur, fs, ts) && Fresh(cur, fs, ts) && Ascending(fs, true) && Ascending(ts, true)
    requires Walkable(fs, ts)
    ensures var a := ApplyEdits(Object(cur), ObjectEdits("", fs, ts, true, h));
            a.status == 0 && a.root.Object? && AbsMembers(a.root.members) == Walked(AbsMembers(cur), fs, ts)
    decreases h, 0, 2 * (|fs| + |ts|)
  {
    if fs == [] && ts == [] {
      assert Walked(AbsMembers(cur), fs, ts) == AbsMembers(cur);
    } else {
      var diff := if fs == [] then 1 else if ts == [] then -1 else CompareStrings(fs[0].key, ts[0].key, true);
      if diff == 0 {
        StepSame(cur, fs, ts, h);
      } else if diff < 0 {
        StepRemove(cur, fs, ts, h);
      } else {
        StepAdd(cur, fs, ts, h);
      }
    }
  }

  /** The member of an ascending list with the key of its head is the head. */
  lemma OnlyPartner(fs: Members, ts: Members)
    requires fs != [] && ts != [] && fs[0].key == ts[0].key && Ascending(ts, true)
    ensures TakenOut(fs[0], ts) <==> !SameContainer(fs[0].value, ts[0].value) && Differs(fs[0].value, ts[0].value)
    ensures forall j :: 0 <= j < |ts| ==> ts[j] in ts[1..] || ts[j].key == fs[0].key
  {
    hide Differs;
    AscendingTail(ts);
    forall j | 0 <= j < |ts| ensures j == 0 || (ts[j] in ts[1..] && ts[j].key != fs[0].key) {
      assert j > 0 ==> ts[1..][j - 1] == ts[j];
    }
  }

  lemma {:induction false} StepSame(cur: Members, fs: Members, ts: Members, h: nat)
    requires fs != [] && ts != [] && CompareStrings(fs[0].key, ts[0].key, true) == 0 && MembersHeight(fs) < h
    requires Ready(cur, fs, ts) && Fresh(cur, fs, ts) && Ascending(fs, true) && Ascending(ts, true)
    requires Walkable(fs, ts)
    ensures var a := ApplyEdits(Object(cur), ObjectEdits("", fs, ts, true, h));
            a.status == 0 && a.root.Object? && AbsMembers(a.root.members) == Walked(AbsMembers(cur), fs, ts)
    decreases h, 0, 2 * (|fs| + |ts|) - 1
  {
    CompareZeroIsSameKey(fs[0].key, ts[0].key, true);
    var k := fs[0].key;
    assert "" + "/" + Encode(k) == "/" + Encode(k);
    AscendingTail(fs);
    AscendingTail(ts);
    OnlyPartner(fs, ts);
    var rs := RoundTripMember(cur, fs[0], ts[0].value);
    ReadyStep(cur, rs, fs, fs[1..], ts, ts[1..], k);
    KeySetHead(fs);
    WalkableStep(fs, fs[1..], ts, ts[1..], k);
    AbsMembersKeys(cur);
    AbsMembersKeys(rs);
    FreshTail(cur, rs, fs, fs[1..], ts, ts[1..], k);
    ObjectWalk(rs, fs[1..], ts[1..], h);
    ApplyAppend(Object(cur), Edits("/" + Encode(k), fs[0].value, ts[0].value, true),
        ObjectEdits("", fs[1..], ts[1..], true, h));
    WalkedSame(AbsMembers(cur), fs, ts);
  }

  /** What removing the least member still to be visited leaves. */
  lemma Removed(cur: Members, fs: Members, ts: Members) returns (rs: Members)
    requires fs != [] && (ts == [] || Less(fs[0].key, ts[0].key, true))
    requires Ready(cur, fs, ts) && Fresh(cur, fs, ts) && Ascending(fs, true) && Ascending(ts, true) && Walkable(fs, ts)
    ensures ApplyEdit(Object(cur), Edit("remove", "/" + Encode(fs[0].key), None)) == Applied(0, Object(rs))
    ensures Ready(rs, fs[1..], ts) && Walkable(fs[1..], ts) && Fresh(rs, fs[1..], ts) &&
            AbsMembers(rs) == AbsMembers(cur) - {fs[0].key}
  {
    hide ApplyEdit, Survives, Editable, Differs;
    var k := fs[0].key;
    KeysAbove(k, ts);
    assert forall j :: 0 <= j < |ts| ==> ts[j].key in KeySet(ts);
    assert TakenOut(fs[0], ts);
    var i := FindKey(cur, k, false).value;
    rs := RemoveAt(cur, i);
    RemoveMember(cur, fs[0]);
    UniqueRemoval(cur, i);
    ValueOfRemoval(cur, i);
    RemovalKeepsOthers(cur, fs[0]);
    AscendingTail(fs);
    ReadyStep(cur, rs, fs, fs[1..], ts, ts, k);
    KeySetHead(fs);
    WalkableStep(fs, fs[1..], ts, ts, k);
    AbsMembersKeys(cur);
    AbsMembersKeys(rs);
    FreshTail(cur, rs, fs, fs[1..], ts, ts, k);
  }

  lemma {:induction false} StepRemove(cur: Members, fs: Members, ts: Members, h: nat)
    requires fs != [] && (ts == [] || Less(fs[0].key, ts[0].key, true)) && MembersHeight(fs) < h
    requires Ready(cur, fs, ts) && Fresh(cur, fs, ts) && Ascending(fs, true) && Ascending(ts, true)
    requires Walkable(fs, ts)
    ensures var a := ApplyEdits(Object(cur), ObjectEdits("", fs, ts, true, h));
            a.status == 0 && a.root.Object? && AbsMembers(a.root.members) == Walked(AbsMembers(cur), fs, ts)
    decreases h, 0, 2 * (|fs| + |ts|) - 1
  {
    hide ApplyEdit, Walked, Ready, Fresh, Walkable;
    assert "" + "/" + Encode(fs[0].key) == "/" + Encode(fs[0].key);
    var rs := Removed(cur, fs, ts);
    AscendingTail(fs);
    ObjectWalk(rs, fs[1..], ts, h);
    var es := ObjectEdits("", fs, ts, true, h);
    assert es[1..] == ObjectEdits("", fs[1..], ts, true, h);
    WalkedRemoved(AbsMembers(cur), fs, ts);
  }

  /** What adding the least member still to be visited leaves. */
  lemma Added(cur: Members, fs: Members, ts: Members) returns (rs: Members)
    requires ts != [] && (fs == [] || CompareStrings(fs[0].key, ts[0].key, true) > 0)
    requires Ready(cur, fs, ts) && Fresh(cur, fs, ts) && Ascending(fs, true) && Ascending(ts, true) && Walkable(fs, ts)
    ensures ApplyEdit(Object(cur), Edit("add", "/" + Encode(ts[0].key), Some(ts[0].value))) == Applied(0, Object(rs))
    ensures Ready(rs, fs, ts[1..]) && Walkable(fs, ts[1..]) && Fresh(rs, fs, ts[1..])
    ensures AbsMembers(rs) == AbsMembers(cur)[ts[0].key := Abs(ts[0].value)]
    ensures ts[0].key !in KeySet(fs)
  {
    hide ApplyEdit, Survives, Editable, Differs;
    var k, x := ts[0].key, ts[0].value;
    if fs != [] { CompareAntisymmetric(fs[0].key, k, true); }
    KeysAbove(k, fs);
    assert k !in KeySet(cur);
    rs := cur + [Member(k, x)];
    AddMember(cur, k, x);
    AppendUnique(cur, Member(k, x));
    ValueOfAppend(cur, Member(k, x));
    AppendKeepsOthers(cur, cur, Member(k, x), k);
    AscendingTail(ts);
    assert forall i :: 0 <= i < |fs| ==> fs[i].key in KeySet(fs);
    assert forall j :: 0 < j < |ts| ==> ts[1..][j - 1] == ts[j];
    ReadyStep(cur, rs, fs, fs, ts, ts[1..], k);
    WalkableStep(fs, fs, ts, ts[1..], k);
    AbsMembersKeys(cur);
    AbsMembersKeys(rs);
    FreshTail(cur, rs, fs, fs, ts, ts[1..], k);
  }

  lemma {:induction false} StepAdd(cur: Members, fs: Members, ts: Members, h: nat)
    requires ts != [] && (fs == [] || CompareStrings(fs[0].key, ts[0].key, true) > 0) &&
             (fs == [] || MembersHeight(fs) < h)
    requires Ready(cur, fs, ts) && Fresh(cur, fs, ts) && Ascending(fs, true) && Ascending(ts, true)
    requires Walkable(fs, ts)
    ensures var a := ApplyEdits(Object(cur), ObjectEdits("", fs, ts, true, h));
            a.status == 0 && a.root.Object? && AbsMembers(a.root.members) == Walked(AbsMembers(cur), fs, ts)
    decreases h, 0, 2 * (|fs| + |ts|) - 1
  {
    hide ApplyEdit, Walked, Ready, Fresh, Walkable;
    assert "" + "/" + Encode(ts[0].key) == "/" + Encode(ts[0].key);
    var rs := Added(cur, fs, ts);
    AscendingTail(ts);
    ObjectWalk(rs, fs, ts[1..], h);
    var es := ObjectEdits("", fs, ts, true, h);
    assert es[1..] == ObjectEdits("", fs, ts[1..], true, h);
    WalkedAdded(AbsMembers(cur), fs, ts);
  }

  lemma {:induction false} RoundTripObject(x: Members, y: Members)
    requires Editable(Object(x), Object(y)) && IntNumbers(Object(x)) && IntNumbers(Object(y))
    requires Height(Object(y)) <= CIRCULAR_LIMIT
    ensures var a := ApplyEdits(Object(x), Edits("", Object(x), Object(y), true));
            a.status == 0 && a.root.Object? && AbsMembers(a.root.members) == AbsMembers(y)
    decreases Height(Object(x)), 0, 2 * (|x| + |y|) + 1
  {
    hide ApplyEdits, Ready, Fresh, Walkable, AbsMembers, SortList, TakenOut, Named, Survives;
    var h := Height(Object(x));
    var fs, ts := SortList(x, true), SortList(y, true);
    SortKeepsHeight(x, true);
    SortAscends(x, true);
    SortAscends(y, true);
    SortKeepsValue(x, true);
    SortKeepsValue(y, true);
    StartsReady(x, y);
    StartsWalkable(x, y);
    SortPermutes(x, true);
    KeysOfPermutation(x, fs);
    StartsFresh(x, fs, ts);
    ObjectWalk(x, fs, ts, h);
    AbsMembersKeys(x);
    assert Walked(AbsMembers(x), fs, ts) == AbsMembers(y);
  }

  lemma StartsFresh(cur: Members, fs: Members, ts: Members)
    requires KeySet(cur) == KeySet(fs)
    ensures Fresh(cur, fs, ts)
  {
  }

  /** Generated edits lead from one tree to a tree with the value of the other. */
  lemma {:induction false} RoundTrip(from: Json, to: Json)
    requires Editable(from, to) && IntNumbers(from) && IntNumbers(to) && Height(to) <= CIRCULAR_LIMIT
    ensures var a := ApplyEdits(from, Edits("", from, to, true)); a.status == 0 && Abs(a.root) == Abs(to)
    decreases Height(from), 1
  {
    DuplicateIsIdentity(to);
    match (from, to)
    case (Number(x), Number(y)) => SameNumberIsEquality(x, y);
    case (Array(x), Array(y)) =>
      ArrayWalk([], x, y, Height(from));
      assert [] + x == x && AbsItems([]) + AbsItems(y) == AbsItems(y);
    case (Object(x), Object(y)) => RoundTripObject(x, y);
    case _ =>
  }

  /**
    Applying the case-sensitive patches from one tree to another to a copy of the first
    succeeds and gives the second, up to the order of members.
   */
  lemma PatchRoundTrip(from: Json, to: Json)
    requires Editable(from, to) && IntNumbers(from) && IntNumbers(to) && Height(to) <= CIRCULAR_LIMIT
    ensures var a := ApplySeq(from, GeneratePatches(from, to, true).items, true);
            a.status == 0 && Abs(a.root) == Abs(to)
  {
    EditsShape("", from, to);
    ApplyComposedAll(from, Edits("", from, to, true));
    RoundTrip(from, to);
  }

  /** Every key of the tree comes through the in-place decoding unharmed. */
  predicate KeysSurvive(v: Json) {
    match v
    case Array(items) => forall i :: 0 <= i < |items| ==> KeysSurvive(items[i])
    case Object(ms) => forall i :: 0 <= i < |ms| ==> Survives(ms[i].key) && KeysSurvive(ms[i].value)
    case _ => true
  }

  /** Trees with surviving keys, those of the first distinct modulo case, are editable. */
  lemma {:induction false} SurvivingTreesAreEditable(from: Json, to: Json)
    requires KeysUnique(from, false) && Sized(from) && KeysSurvive(from) && KeysUnique(to, true) && KeysSurvive(to)
    ensures Editable(from, to)
    decreases from
  {
    hide Survives, TakenOut;
    match (from, to)
    case (Array(x), Array(y)) =>
      forall i | 0 <= i < |x| && i < |y| ensures Editable(x[i], y[i]) {
        SurvivingTreesAreEditable(x[i], y[i]);
      }
    case (Object(x), Object(y)) =>
      UniqueFoldedIsUnique(x);
      forall i, j | 0 <= i < |x| && 0 <= j < |y| && x[i].key == y[j].key ensures Editable(x[i].value, y[j].value) {
        SurvivingTreesAreEditable(x[i].value, y[j].value);
      }
    case _ =>
  }
}
