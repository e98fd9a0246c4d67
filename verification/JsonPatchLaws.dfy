/**
  What the operations of section 4 of RFC 6902 do at the pointers that cJSON_Utils itself
  writes for the nodes of a tree: for each operation, exactly when it does what the
  standard says. A node is named by the location `p` of its parent and its index there.
 */
module JsonPatchLaws {
  import opened Basics
  import opened Decimals
  import opened JsonTree
  import opened JsonObjects
  import opened JsonSort
  import opened JsonPointer
  import opened JsonPatch
  import opened JsonPatchRoundTrip

  /** The container without its child `i`. */
  function WithoutChild(v: Json, i: nat): Json
    requires i < ChildCount(v)
  {
    match v
    case Array(items) => Array(RemoveAt(items, i))
    case Object(ms) => Object(RemoveAt(ms, i))
  }

  /** The container with another value in child `i`; a replaced member ends up last. */
  function WithChild(v: Json, i: nat, x: Json): Json
    requires i < ChildCount(v)
  {
    match v
    case Array(items) => Array(items[i := x])
    case Object(ms) => Object(RemoveAt(ms, i) + [Member(ms[i].key, x)])
  }

  /** The member list with the value under a key, in the place of the old member if there is one. */
  function WithMember(ms: Members, k: Text, x: Json): Members {
    (match FindKey(ms, k, true) case None => ms case Some(i) => RemoveAt(ms, i)) + [Member(k, x)]
  }

  /** An array whose indices fit in 32 bits, or an object with distinct keys. */
  predicate Regular(v: Json) {
    match v
    case Array(items) => |items| < SIZE_MOD
    case Object(ms) => UniqueKeys(ms, true)
    case _ => true
  }

  /** The written token of child `i` names it: it is an index, or the key survives and has no earlier variant. */
  predicate Nameable(v: Json, i: nat)
    requires i < ChildCount(v)
  {
    match v
    case Object(ms) => Named(ms, i)
    case _ => true
  }

  // ---------------------------------------------------------------- below a location

  /** The pointer written for a node is its parent's pointer and its token. */
  lemma {:induction false} PathTextAppend(v: Json, p: Location, i: nat)
    requires IsLocation(v, p) && i < ChildCount(At(v, p))
    ensures IsLocation(v, p + [i]) && PathText(v, p + [i]) == PathText(v, p) + "/" + Token(At(v, p), i)
    decreases |p|
  {
    hide Token, SetChild;
    AtAppend(v, p, [i]);
    if p == [] {
      assert p + [i] == [i] && [i][1..] == [];
      assert PathText(ChildAt(v, i), []) == "";
    } else {
      var c, q := ChildAt(v, p[0]), p[1..];
      PathTextAppend(c, q, i);
      assert (p + [i])[1..] == q + [i];
      var a, b, t := "/" + Token(v, p[0]), PathText(c, q), Token(At(c, q), i);
      assert a + (b + "/" + t) == (a + b) + "/" + t;
    }
  }

  /** An edit below a location acts on the node there. */
  lemma {:induction false} EditAt(v: Json, p: Location, e: Edit)
    requires IsLocation(v, p) && FirstAlong(v, p, true) && Generated(e) && e.path != [] && e.path[0] == '/'
    ensures var a, b := ApplyEdit(At(v, p), e), ApplyEdit(v, e.(path := PathText(v, p) + e.path));
            b.status == a.status && (a.status == 0 ==> b.root == ReplaceAt(v, p, a.root))
    decreases |p|
  {
    hide ApplyEdit;
    if p == [] {
      assert PathText(v, p) + e.path == e.path;
    } else {
      var i, c := p[0], ChildAt(v, p[0]);
      var f := e.(path := PathText(c, p[1..]) + e.path);
      EditAt(c, p[1..], e);
      assert f.path[0] == '/' by {
        if p[1..] != [] {
          assert PathText(c, p[1..])[0] == '/';
        }
      }
      EditBelow(v, i, f);
      assert "/" + Token(v, i) + f.path == PathText(v, p) + e.path;
    }
  }

  lemma {:induction false} DetachAt(v: Json, p: Location, rest: Text)
    requires IsLocation(v, p) && FirstAlong(v, p, true) && rest != [] && rest[0] == '/'
    ensures var d := DetachPath(At(v, p), rest, true);
            DetachPath(v, PathText(v, p) + rest, true) == (ReplaceAt(v, p, d.0), d.1)
    decreases |p|
  {
    hide DetachPath;
    if p == [] {
      assert PathText(v, p) + rest == rest;
    } else {
      var i, c := p[0], ChildAt(v, p[0]);
      var more := PathText(c, p[1..]) + rest;
      DetachAt(c, p[1..], rest);
      assert more[0] == '/' by {
        if p[1..] != [] {
          assert PathText(c, p[1..])[0] == '/';
        }
      }
      DetachBelow(v, i, more);
      assert "/" + Token(v, i) + more == PathText(v, p) + rest;
    }
  }

  // ---------------------------------------------------------------- at the parent

  lemma RemovalsDiffer(ms: Members, i: nat, j: nat)
    requires i < |ms| && j < |ms| && i != j && UniqueKeys(ms, true)
    ensures RemoveAt(ms, i) != RemoveAt(ms, j)
  {
    var a, b := if i < j then i else j, if i < j then j else i;
    assert RemoveAt(ms, a)[a] == ms[a + 1] && RemoveAt(ms, b)[a] == ms[a];
    assert !SameKey(ms[a].key, ms[a + 1].key, true);
  }

  /** The member that the written token of member `i` finds: `i` itself exactly if it is named. */
  lemma TokenFinds(ms: Members, i: nat)
    requires i < |ms|
    ensures FindKey(ms, DecodeInPlace(Encode(ms[i].key)), false) == Some(i) <==> Named(ms, i)
  {
    hide Survives, DecodeInPlace, Encode;
    var k := ms[i].key;
    DecodedVariant(k);
    DecodeUndoesEncode(k);
    if Named(ms, i) {
      FirstMatchIs(ms, k, i);
    }
  }

  lemma RemoveDirect(v: Json, i: nat)
    requires Regular(v) && i < ChildCount(v)
    ensures ApplyEdit(v, Edit("remove", "/" + Token(v, i), None)) == Applied(0, WithoutChild(v, i)) <==> Nameable(v, i)
  {
    hide DetachPath, AddPath, DecodeIndex, DecodeInPlace, Encode, FindKey, Named;
    match v
    case Array(items) => RemoveItem(items, i);
    case Object(ms) =>
      var k := ms[i].key;
      EncodeHasNoSlash(k);
      DirectPath(v, Encode(k), Json.Null);
      TokenFinds(ms, i);
      var f := FindKey(ms, DecodeInPlace(Encode(k)), false);
      if f.Some? && f.value != i {
        RemovalsDiffer(ms, i, f.value);
      }
  }

  lemma ReplaceDirect(v: Json, i: nat, x: Json)
    requires Regular(v) && i < ChildCount(v) && Height(x) <= CIRCULAR_LIMIT
    ensures ApplyEdit(v, Edit("replace", "/" + Token(v, i), Some(x))) == Applied(0, WithChild(v, i, x)) <==>
              Nameable(v, i)
  {
    hide DetachPath, AddPath, DecodeIndex, DecodeInPlace, Encode, FindKey, Named, Duplicate, ApplyEdit;
    match v
    case Array(items) => ReplaceItem(items, i, x);
    case Object(ms) => ReplaceMemberExactly(ms, i, x);
  }

  lemma ReplaceMemberExactly(ms: Members, i: nat, x: Json)
    requires UniqueKeys(ms, true) && i < |ms| && Height(x) <= CIRCULAR_LIMIT
    ensures (ApplyEdit(Object(ms), Edit("replace", "/" + Encode(ms[i].key), Some(x))) ==
             Applied(0, Object(RemoveAt(ms, i) + [Member(ms[i].key, x)]))) <==> Named(ms, i)
  {
    hide DetachPath, AddPath, DecodeInPlace, Encode, FindKey, Duplicate, Survives;
    var k := ms[i].key;
    var d := DecodeInPlace(Encode(k));
    var f := FindKey(ms, d, false);
    EncodeHasNoSlash(k);
    DirectPath(Object(ms), Encode(k), x);
    DuplicateIsIdentity(x);
    TokenFinds(ms, i);
    DecodeUndoesEncode(k);
    if f.Some? {
      var rest := RemoveAt(ms, f.value);
      DirectPath(Object(rest), Encode(k), x);
      ReplacedMembers(ms, i, f.value, d, x);
    }
  }

  /** The members left when member `j` is taken out and a value is added under `d`. */
  lemma ReplacedMembers(ms: Members, i: nat, j: nat, d: Text, x: Json)
    requires UniqueKeys(ms, true) && i < |ms| && j < |ms|
    ensures WithMember(RemoveAt(ms, j), d, x) == RemoveAt(ms, i) + [Member(ms[i].key, x)] <==> i == j && d == ms[i].key
  {
    var rest, k := RemoveAt(ms, j), ms[i].key;
    var r := WithMember(rest, d, x);
    assert r[|r| - 1] == Member(d, x);
    assert forall q :: 0 <= q < |rest| ==> rest[q] == ms[if q < j then q else q + 1];
    if d == k {
      if i == j {
        assert FindKey(rest, k, true) == None;
      } else {
        var q := if i < j then i else i - 1;
        assert rest[q] == ms[i];
        assert FindKey(rest, k, true).Some?;
        assert |r| == |ms| - 1;
      }
    }
  }

  lemma AddDirect(ms: Members, k: Text, x: Json)
    requires Height(x) <= CIRCULAR_LIMIT
    ensures ApplyEdit(Object(ms), Edit("add", "/" + Encode(k), Some(x))) == Applied(0, Object(WithMember(ms, k, x)))
            <==> Survives(k)
  {
    hide DetachPath, AddPath, DecodeInPlace, Encode, FindKey, Duplicate, Survives;
    var d := DecodeInPlace(Encode(k));
    EncodeHasNoSlash(k);
    DirectPath(Object(ms), Encode(k), x);
    DuplicateIsIdentity(x);
    DecodeUndoesEncode(k);
    var r, s := WithMember(ms, d, x), WithMember(ms, k, x);
    assert r[|r| - 1] == Member(d, x) && s[|s| - 1] == Member(k, x);
  }

  lemma InsertDirect(items: seq<Json>, i: nat, x: Json)
    requires i <= |items| && i < SIZE_MOD && Height(x) <= CIRCULAR_LIMIT
    ensures ApplyEdit(Array(items), Edit("add", "/" + Decimal(i), Some(x))) == Applied(0, Array(InsertAt(items, i, x)))
  {
    hide DecodeIndex, DecodeInPlace, DetachPath, AddPath, Duplicate;
    DecimalHasNoTilde(i);
    DecimalDecodes(i);
    DirectPath(Array(items), Decimal(i), x);
    DuplicateIsIdentity(x);
  }

  // ---------------------------------------------------------------- the laws

  lemma Opcodes()
    ensures OpcodeOf("remove") == REMOVE && OpcodeOf("replace") == REPLACE && OpcodeOf("add") == ADD
  {
  }

  lemma WholePath(prefix: Text, token: Text)
    ensures prefix + "/" + token == prefix + ("/" + token)
  {
  }

  /** "remove" (section 4.2) deletes exactly the named node if and only if its token names it. */
  lemma RemoveLaw(v: Json, p: Location, i: nat)
    requires IsLocation(v, p) && FirstAlong(v, p, true) && Regular(At(v, p)) && i < ChildCount(At(v, p))
    ensures (ApplyOp(v, REMOVE, PathText(v, p) + "/" + Token(At(v, p), i), None, None, true) ==
             Applied(0, ReplaceAt(v, p, WithoutChild(At(v, p), i)))) <==> Nameable(At(v, p), i)
  {
    hide ApplyOp, Nameable, ReplaceAt;
    var parent := At(v, p);
    var e := Edit("remove", "/" + Token(parent, i), None);
    Opcodes();
    WholePath(PathText(v, p), Token(parent, i));
    EditAt(v, p, e);
    RemoveDirect(parent, i);
    ReplaceInjective(v, p, ApplyEdit(parent, e).root, WithoutChild(parent, i));
  }

  /**
    "replace" (section 4.3) puts the value in the place of exactly the named node if and only if
    its token names it.
   */
  lemma ReplaceLaw(v: Json, p: Location, i: nat, x: Json)
    requires IsLocation(v, p) && FirstAlong(v, p, true) && Regular(At(v, p)) && i < ChildCount(At(v, p))
    requires Height(x) <= CIRCULAR_LIMIT
    ensures (ApplyOp(v, REPLACE, PathText(v, p) + "/" + Token(At(v, p), i), Some(x), None, true) ==
             Applied(0, ReplaceAt(v, p, WithChild(At(v, p), i, x)))) <==> Nameable(At(v, p), i)
  {
    hide ApplyOp, Nameable, ReplaceAt;
    var parent := At(v, p);
    var e := Edit("replace", "/" + Token(parent, i), Some(x));
    Opcodes();
    WholePath(PathText(v, p), Token(parent, i));
    EditAt(v, p, e);
    ReplaceDirect(parent, i, x);
    ReplaceInjective(v, p, ApplyEdit(parent, e).root, WithChild(parent, i, x));
  }

  /**
    "add" (section 4.1) of a member sets its value in the object, whether or not there was
    one, if and only if the key survives the decoding.
   */
  lemma AddLaw(v: Json, p: Location, k: Text, x: Json)
    requires IsLocation(v, p) && FirstAlong(v, p, true) && At(v, p).Object? && Height(x) <= CIRCULAR_LIMIT
    ensures (ApplyOp(v, ADD, PathText(v, p) + "/" + Encode(k), Some(x), None, true) ==
             Applied(0, ReplaceAt(v, p, Object(WithMember(At(v, p).members, k, x))))) <==> Survives(k)
  {
    hide ApplyOp, ReplaceAt, Survives;
    var parent := At(v, p);
    var e := Edit("add", "/" + Encode(k), Some(x));
    Opcodes();
    WholePath(PathText(v, p), Encode(k));
    EditAt(v, p, e);
    AddDirect(parent.members, k, x);
    ReplaceInjective(v, p, ApplyEdit(parent, e).root, Object(WithMember(parent.members, k, x)));
  }

  /** The value of an object with a member set. */
  lemma AddedMember(ms: Members, k: Text, x: Json)
    requires UniqueKeys(ms, true)
    ensures UniqueKeys(WithMember(ms, k, x), true)
    ensures AbsMembers(WithMember(ms, k, x)) == AbsMembers(ms)[k := Abs(x)]
  {
    hide Abs;
    AbsMembersKeys(ms);
    var f := FindKey(ms, k, true);
    var rest := if f.Some? then RemoveAt(ms, f.value) else ms;
    if f.Some? {
      UniqueRemoval(ms, f.value);
      ValueOfRemoval(ms, f.value);
    }
    ValueOfAppend(rest, Member(k, x));
    AppendUnique(rest, Member(k, x));
  }

  /** "add" (section 4.1) of an array element inserts it before the index, and at the end for "-". */
  lemma AddItemLaw(v: Json, p: Location, i: nat, x: Json)
    requires IsLocation(v, p) && FirstAlong(v, p, true) && At(v, p).Array? && Height(x) <= CIRCULAR_LIMIT
    requires i <= |At(v, p).items| && i < SIZE_MOD
    ensures ApplyOp(v, ADD, PathText(v, p) + "/" + Decimal(i), Some(x), None, true) ==
            Applied(0, ReplaceAt(v, p, Array(InsertAt(At(v, p).items, i, x))))
    ensures ApplyOp(v, ADD, PathText(v, p) + "/-", Some(x), None, true) ==
            Applied(0, ReplaceAt(v, p, Array(At(v, p).items + [x])))
  {
    hide ApplyOp, ReplaceAt;
    var items := At(v, p).items;
    Opcodes();
    WholePath(PathText(v, p), Decimal(i));
    EditAt(v, p, Edit("add", "/" + Decimal(i), Some(x)));
    InsertDirect(items, i, x);
    EditAt(v, p, Edit("add", "/-", Some(x)));
    AppendItem(items, x);
  }

  /** The child that detach_path takes for the written token of child `i`. */
  function TokenTakes(v: Json, i: nat): (r: Option<nat>)
    requires i < ChildCount(v)
    ensures r.Some? ==> r.value < ChildCount(v)
  {
    match v
    case Array(_) => Some(i)
    case Object(ms) => FindKey(ms, DecodeInPlace(Encode(ms[i].key)), false)
  }

  /** It is the child itself exactly if the token names it. */
  lemma TokenTakesExactly(v: Json, i: nat)
    requires i < ChildCount(v)
    ensures TokenTakes(v, i) == Some(i) <==> Nameable(v, i)
  {
    hide Named, DecodeInPlace, Encode, FindKey;
    match v
    case Array(_) =>
    case Object(ms) => TokenFinds(ms, i);
  }

  lemma {:induction false} ReplaceBySame(v: Json, l: Location)
    requires IsLocation(v, l)
    ensures ReplaceAt(v, l, At(v, l)) == v
  {
    if l != [] {
      ReplaceBySame(ChildAt(v, l[0]), l[1..]);
      SetSameChild(v, l[0]);
    }
  }

  /** detach_path takes out the child that the token finds, and nothing else. */
  lemma DetachTakesTheNode(v: Json, p: Location, i: nat)
    requires IsLocation(v, p) && FirstAlong(v, p, true) && Regular(At(v, p)) && i < ChildCount(At(v, p))
    ensures var parent := At(v, p);
            var f := TokenTakes(parent, i);
            DetachPath(v, PathText(v, p) + "/" + Token(parent, i), true) ==
            if f.None? then (v, None)
            else (ReplaceAt(v, p, WithoutChild(parent, f.value)), Some(ChildAt(parent, f.value)))
  {
    hide DetachPath, AddPath, DecodeIndex, DecodeInPlace, Encode, FindKey;
    var parent := At(v, p);
    DetachAt(v, p, "/" + Token(parent, i));
    WholePath(PathText(v, p), Token(parent, i));
    ReplaceBySame(v, p);
    match parent
    case Array(items) =>
      DecimalHasNoTilde(i);
      DecimalDecodes(i);
      DirectPath(parent, Decimal(i), Json.Null);
    case Object(ms) =>
      EncodeHasNoSlash(ms[i].key);
      DirectPath(parent, Encode(ms[i].key), Json.Null);
  }

  /**
    "move" (section 4.4) is a removal of the node that the token of its source finds, followed
    by an addition of that node; it is the node the source names exactly if the token names
    it, and where the token finds none nothing is moved.
   */
  lemma MoveLaw(v: Json, p: Location, i: nat, path: Text)
    requires IsLocation(v, p) && FirstAlong(v, p, true) && Regular(At(v, p)) && i < ChildCount(At(v, p))
    requires path != "" && Height(At(v, p)) <= CIRCULAR_LIMIT
    ensures var parent := At(v, p);
            var f := TokenTakes(parent, i);
            ApplyOp(v, MOVE, path, None, Some(String(PathText(v, p) + "/" + Token(parent, i))), true) ==
            if f.None? then Applied(5, v)
            else ApplyOp(ReplaceAt(v, p, WithoutChild(parent, f.value)), ADD, path, Some(ChildAt(parent, f.value)),
                None, true)
    ensures TokenTakes(At(v, p), i) == Some(i) <==> Nameable(At(v, p), i)
  {
    hide DetachPath, AddPath, Duplicate, Nameable, Regular, FirstAlong, TokenTakes;
    var parent := At(v, p);
    DetachTakesTheNode(v, p, i);
    TokenTakesExactly(parent, i);
    var f := TokenTakes(parent, i);
    if f.Some? {
      ChildLower(parent, f.value);
      DuplicateIsIdentity(ChildAt(parent, f.value));
    }
  }

  lemma ChildLower(v: Json, i: nat)
    requires i < ChildCount(v)
    ensures Height(ChildAt(v, i)) <= Height(v)
  {
  }

  /** "copy" (section 4.5) is an addition of the value at the source location. */
  lemma CopyLaw(v: Json, l: Location, path: Text)
    requires IsLocation(v, l) && FirstAlong(v, l, true) && path != "" && Height(At(v, l)) <= CIRCULAR_LIMIT
    ensures ApplyOp(v, COPY, path, None, Some(String(PathText(v, l))), true) ==
            ApplyOp(v, ADD, path, Some(At(v, l)), None, true)
  {
    hide AddPath, Duplicate, FirstAlong, IsLocation, At, Locate, PathText;
    LocatePathText(v, l, true);
    DuplicateIsIdentity(At(v, l));
  }

  // ---------------------------------------------------------------- tests

  lemma {:induction false} BelowIsPlain(v: Json, l: Location)
    requires KeysUnique(v, true) && IntNumbers(v) && IsLocation(v, l)
    ensures KeysUnique(At(v, l), true) && IntNumbers(At(v, l))
  {
    if l != [] {
      BelowIsPlain(ChildAt(v, l[0]), l[1..]);
    }
  }

  lemma {:induction false} ReplaceKeepsValue(v: Json, l: Location, x: Json)
    requires KeysUnique(v, true) && IsLocation(v, l) && Abs(x) == Abs(At(v, l))
    ensures Abs(ReplaceAt(v, l, x)) == Abs(v)
  {
    if l != [] {
      var i, c := l[0], ChildAt(v, l[0]);
      ReplaceKeepsValue(c, l[1..], x);
      ChildKeepsValue(v, i, ReplaceAt(c, l[1..], x));
    }
  }

  lemma ChildKeepsValue(v: Json, i: nat, x: Json)
    requires KeysUnique(v, true) && i < ChildCount(v) && Abs(x) == Abs(ChildAt(v, i))
    ensures Abs(SetChild(v, i, x)) == Abs(v)
  {
    match v
    case Array(items) => assert AbsItems(items[i := x]) == AbsItems(items);
    case Object(ms) =>
      ValueOfUpdate(ms, i, x);
      AbsMembersAt(ms, i);
  }

  /**
    "test" (section 4.6) succeeds exactly when the node equals the value up to member
    order, and leaves the document as it was up to member order.
   */
  lemma TestLaw(v: Json, l: Location, x: Json)
    requires KeysUnique(v, true) && IntNumbers(v) && IsLocation(v, l) && FirstAlong(v, l, true)
    requires KeysUnique(x, true) && IntNumbers(x)
    ensures var a := ApplyOp(v, TEST, PathText(v, l), Some(x), None, true);
            a.status == (if Abs(At(v, l)) == Abs(x) then 0 else 1) && Abs(a.root) == Abs(v)
  {
    LocatePathText(v, l, true);
    BelowIsPlain(v, l);
    CompareJsonDecides(At(v, l), x);
    ComparedKeepsValue(At(v, l), x, true);
    ReplaceKeepsValue(v, l, Compared(At(v, l), x, true));
  }
}
