/**
  JSON Merge Patch (RFC 7396): applying and generating.

  `Rfc` is the MergePatch function of section 2 of the standard, on values whose objects
  are maps. The code works on ordered member lists; it computes the same function, and a
  generated patch leads from one tree to another exactly when the null members of the
  target are in places where the standard can express them.
 */
module JsonMerge {
  import opened Basics
  import opened JsonTree
  import opened JsonObjects
  import opened JsonSort

  // ---------------------------------------------------------------- the standard

  function MembersOf(v: Option<Value>): map<Text, Value> {
    if v.Some? && v.value.VObject? then v.value.members else map[]
  }

  function Get(m: map<Text, Value>, k: Text): Option<Value> {
    if k in m then Some(m[k]) else None
  }

  /** MergePatch(Target, Patch) of section 2 of RFC 7396; an absent target is None. */
  function Rfc(target: Option<Value>, patch: Value): Value
    decreases patch
  {
    if patch.VObject? then VObject(RfcMembers(MembersOf(target), patch)) else patch
  }

  function RfcMembers(t: map<Text, Value>, patch: Value): map<Text, Value>
    requires patch.VObject?
    decreases patch, 0
  {
    var p := patch.members;
    map k | k in t.Keys + p.Keys && !(k in p && p[k] == VNull) ::
      if k in p then Rfc(Get(t, k), p[k]) else t[k]
  }

  // ---------------------------------------------------------------- merge_patch

  function MergePatch(target: Option<Json>, patch: Json, cs: bool): Option<Json>
    decreases patch, 1
  {
    match patch
    case Object(ps) => MergeMembers(if target.Some? && target.value.Object? then target.value.members else [], ps, cs)
    case _ => Duplicate(patch)
  }

  /** The loop over the members of the patch; `cur` is the target object as it stands. */
  function MergeMembers(cur: Members, ps: Members, cs: bool): Option<Json>
    decreases ps, 0
  {
    if ps == [] then Some(Object(cur))
    else
      var at := FindKey(cur, ps[0].key, cs);
      var rest := if at.Some? then RemoveAt(cur, at.value) else cur;
      if ps[0].value.Null? then MergeMembers(rest, ps[1..], cs)
      else
        match MergePatch(if at.Some? then Some(cur[at.value].value) else None, ps[0].value, cs)
        case None => None
        case Some(v) => MergeMembers(rest + [Member(ps[0].key, v)], ps[1..], cs)
  }

  /** merge_patch with its loop. */
  method MergePatchLoop(target: Option<Json>, patch: Json, cs: bool) returns (r: Option<Json>)
    ensures r == MergePatch(target, patch, cs)
    decreases patch
  {
    if !patch.Object? {
      return Duplicate(patch);
    }
    var cur := if target.Some? && target.value.Object? then target.value.members else [];
    var i := 0;
    while i < |patch.members|
      invariant 0 <= i <= |patch.members|
      invariant MergeMembers(cur, patch.members[i..], cs) == MergePatch(target, patch, cs)
    {
      var p := patch.members[i];
      assert patch.members[i..][0] == p && patch.members[i..][1..] == patch.members[i + 1..];
      var at := FindKey(cur, p.key, cs);
      var replaceMe := if at.Some? then Some(cur[at.value].value) else None;
      if at.Some? {
        cur := RemoveAt(cur, at.value);
      }
      if !p.value.Null? {
        var replacement := MergePatchLoop(replaceMe, p.value, cs);
        if replacement.None? {
          return None;
        }
        cur := cur + [Member(p.key, replacement.value)];
      }
      i := i + 1;
    }
    return Some(Object(cur));
  }

  /** Everything the merge has to duplicate is within the duplication limit. */
  predicate Fits(patch: Json) {
    match patch
    case Object(ps) => forall i :: 0 <= i < |ps| ==> ps[i].value.Null? || Fits(ps[i].value)
    case _ => Height(patch) <= CIRCULAR_LIMIT
  }

  function AbsOption(v: Option<Json>): Option<Value> {
    match v
    case None => None
    case Some(j) => Some(Abs(j))
  }

  /** The members left when the first one with a key, if any, is taken out. */
  lemma ValueWithout(s: Members, k: Text) returns (rest: Members)
    requires UniqueKeys(s, true)
    ensures rest == if FindKey(s, k, true).Some? then RemoveAt(s, FindKey(s, k, true).value) else s
    ensures AbsMembers(rest) == AbsMembers(s) - {k} && UniqueKeys(rest, true)
    ensures FindKey(s, k, true).Some? ==>
              k in AbsMembers(s) && AbsMembers(s)[k] == Abs(s[FindKey(s, k, true).value].value)
    ensures FindKey(s, k, true).None? ==> k !in AbsMembers(s)
    ensures forall i :: 0 <= i < |rest| ==> rest[i] in s
  {
    hide AbsMembers, Abs;
    AbsMembersKeys(s);
    match FindKey(s, k, true)
    case None =>
      rest := s;
      assert AbsMembers(s) - {k} == AbsMembers(s);
    case Some(j) =>
      rest := RemoveAt(s, j);
      AbsMembersAt(s, j);
      UniqueRemoval(s, j);
      ValueOfRemoval(s, j);
      assert forall i :: 0 <= i < |rest| ==> rest[i] == s[if i < j then i else i + 1];
  }

  // ---------------------------------------------------------------- merging computes the standard's function

  /** A tree and a patch member list the merge lemma speaks about. */
  predicate AllUnique(s: Members) {
    UniqueKeys(s, true) && forall i :: 0 <= i < |s| ==> KeysUnique(s[i].value, true)
  }

  lemma RfcNothing(t: map<Text, Value>)
    ensures RfcMembers(t, VObject(map[])) == t
  {
  }

  lemma RfcNull(t: map<Text, Value>, m: map<Text, Value>, k: Text)
    requires k !in m
    ensures RfcMembers(t, VObject(m[k := VNull])) == RfcMembers(t - {k}, VObject(m))
  {
  }

  lemma RfcPut(t: map<Text, Value>, m: map<Text, Value>, k: Text, v: Value)
    requires k !in m && v != VNull
    ensures RfcMembers(t, VObject(m[k := v])) == RfcMembers((t - {k})[k := Rfc(Get(t, k), v)], VObject(m))
  {
  }

  lemma NoMembers()
    ensures AbsMembers([]) == map[]
  {
  }

  /** merge_patch computes MergePatch of RFC 7396, and it fails exactly when a value is too high to duplicate. */
  lemma {:induction false} MergeIsRfc(target: Option<Json>, patch: Json)
    requires target.Some? ==> KeysUnique(target.value, true)
    requires KeysUnique(patch, true)
    ensures MergePatch(target, patch, true).Some? <==> Fits(patch)
    ensures MergePatch(target, patch, true).Some? ==>
              && Abs(MergePatch(target, patch, true).value) == Rfc(AbsOption(target), Abs(patch))
              && KeysUnique(MergePatch(target, patch, true).value, true)
    decreases patch, 1
  {
    match patch
    case Object(ps) =>
      var base := if target.Some? && target.value.Object? then target.value.members else [];
      MergeMembersIsRfc(base, ps);
      assert AbsMembers(base) == MembersOf(AbsOption(target));
    case _ => DuplicateIsIdentity(patch);
  }

  lemma {:induction false} MergeMembersIsRfc(cur: Members, ps: Members)
    requires AllUnique(cur) && AllUnique(ps)
    ensures MergeMembers(cur, ps, true).Some? <==> forall i :: 0 <= i < |ps| ==> ps[i].value.Null? || Fits(ps[i].value)
    ensures MergeMembers(cur, ps, true).Some? ==>
              && Abs(MergeMembers(cur, ps, true).value) == VObject(RfcMembers(AbsMembers(cur), VObject(AbsMembers(ps))))
              && KeysUnique(MergeMembers(cur, ps, true).value, true)
    decreases ps, 0
  {
    hide Rfc, RfcMembers, MergePatch, Fits, AbsMembers, SameKey;
    if ps == [] {
      NoMembers();
      RfcNothing(AbsMembers(cur));
    } else {
      var k, pv := ps[0].key, ps[0].value;
      var rest := ValueWithout(cur, k);
      UniqueTail(ps);
      AbsMembersKeys(ps[1..]);
      var tail := AbsMembers(ps[1..]);
      forall i | 0 <= i < |rest| ensures KeysUnique(rest[i].value, true) {
        var j :| 0 <= j < |cur| && cur[j] == rest[i];
      }
      assert ps == [ps[0]] + ps[1..];
      ValueOfHead(ps[0], ps[1..]);
      if pv.Null? {
        MergeMembersIsRfc(rest, ps[1..]);
        RfcNull(AbsMembers(cur), tail, k);
      } else {
        var at := FindKey(cur, k, true);
        var former := if at.Some? then Some(cur[at.value].value) else None;
        MergeIsRfc(former, pv);
        assert AbsOption(former) == Get(AbsMembers(cur), k);
        if MergePatch(former, pv, true).Some? {
          var m := Member(k, MergePatch(former, pv, true).value);
          AbsMembersKeys(rest);
          ValueOfAppend(rest, m);
          AppendUnique(rest, m);
          MergeMembersIsRfc(rest + [m], ps[1..]);
          RfcPut(AbsMembers(cur), tail, k, Abs(pv));
        }
      }
    }
  }

  // ---------------------------------------------------------------- the case-insensitive variant

  lemma {:induction false} FindOnLower(s: Members, k: Text, cs: bool)
    requires KeysLower(s) && IsLower(k)
    ensures FindKey(s, k, cs) == FindKey(s, k, true)
  {
    if s != [] {
      FindOnLower(s[1..], k, cs);
    }
  }

  /** On lower-case keys the case-insensitive merge is the case-sensitive one. */
  lemma {:induction false} MergeOnLowerKeys(target: Option<Json>, patch: Json, cs: bool)
    requires (target.Some? ==> TreeLower(target.value)) && TreeLower(patch)
    ensures MergePatch(target, patch, cs) == MergePatch(target, patch, true)
    ensures MergePatch(target, patch, cs).Some? ==> TreeLower(MergePatch(target, patch, cs).value)
    decreases patch, 1
  {
    match patch
    case Object(ps) =>
      MergeMembersOnLower(if target.Some? && target.value.Object? then target.value.members else [], ps, cs);
    case _ => DuplicateIsIdentity(patch);
  }

  lemma {:induction false} MergeMembersOnLower(cur: Members, ps: Members, cs: bool)
    requires TreeLower(Object(cur)) && TreeLower(Object(ps))
    ensures MergeMembers(cur, ps, cs) == MergeMembers(cur, ps, true)
    ensures MergeMembers(cur, ps, cs).Some? ==> TreeLower(MergeMembers(cur, ps, cs).value)
    decreases ps, 0
  {
    if ps != [] {
      var k, pv := ps[0].key, ps[0].value;
      FindOnLower(cur, k, cs);
      var at := FindKey(cur, k, true);
      var rest := if at.Some? then RemoveAt(cur, at.value) else cur;
      assert at.Some? ==> forall i :: 0 <= i < |rest| ==> rest[i] == cur[if i < at.value then i else i + 1];
      if pv.Null? {
        MergeMembersOnLower(rest, ps[1..], cs);
      } else {
        var former := if at.Some? then Some(cur[at.value].value) else None;
        MergeOnLowerKeys(former, pv, cs);
        if MergePatch(former, pv, true).Some? {
          MergeMembersOnLower(rest + [Member(k, MergePatch(former, pv, true).value)], ps[1..], cs);
        }
      }
    }
  }

  /** The value that the first member with a key has. */
  function Former(s: Members, k: Text, cs: bool): Option<Json> {
    match FindKey(s, k, cs)
    case None => None
    case Some(i) => Some(s[i].value)
  }

  /** No member has the key under the case rule. */
  predicate Free(s: Members, k: Text, cs: bool) {
    forall i :: 0 <= i < |s| ==> !SameKey(s[i].key, k, cs)
  }

  /** Where the member `m` of a merged object comes from: the target, or a patch member that is not null. */
  predicate Origin(m: Member<Json>, cur: Members, ps: Members) {
    || (m in cur && Free(ps, m.key, false))
    || (exists i :: 0 <= i < |ps| && ps[i].key == m.key && !ps[i].value.Null?)
  }

  /** What a patch member that is not null turns into. */
  function Merged(cur: Members, p: Member<Json>): Option<Member<Json>> {
    match MergePatch(Former(cur, p.key, false), p.value, false)
    case None => None
    case Some(v) => Some(Member(p.key, v))
  }

  /** The members of a case-insensitive merge, by where they come from. */
  ghost predicate MergedFrom(r: Members, cur: Members, ps: Members) {
    && UniqueKeys(r, false)
    && (forall m :: m in cur && Free(ps, m.key, false) ==> m in r)
    && (forall m :: m in r ==> Origin(m, cur, ps))
    && (forall i :: 0 <= i < |ps| && !ps[i].value.Null? ==> Merged(cur, ps[i]).Some? && Merged(cur, ps[i]).value in r)
  }

  /** A list without the first member that has a key. */
  function Without(s: Members, k: Text, cs: bool): Members {
    match FindKey(s, k, cs)
    case None => s
    case Some(i) => RemoveAt(s, i)
  }

  lemma WithoutFacts(s: Members, k: Text, c: bool)
    requires UniqueKeys(s, c)
    ensures var r := Without(s, k, c);
            && UniqueKeys(r, c) && Free(r, k, c)
            && (forall m :: m in r <==> m in s && !SameKey(m.key, k, c))
  {
    var f := FindKey(s, k, c);
    if f.Some? {
      var r := Without(s, k, c);
      assert forall j :: 0 <= j < |r| ==> r[j] == s[if j < f.value then j else j + 1];
      forall j | 0 <= j < |s| && j != f.value ensures s[j] in r && !SameKey(s[j].key, k, c) {
        assert r[if j < f.value then j else j - 1] == s[j];
        assert !SameKey(s[if j < f.value then j else f.value].key, s[if j < f.value then f.value else j].key, c);
      }
    }
  }

  lemma WithoutFirst(s: Members, k: Text)
    requires UniqueKeys(s, false)
    ensures UniqueKeys(Without(s, k, false), false) && Free(Without(s, k, false), k, false)
    ensures forall m :: m in Without(s, k, false) <==> m in s && !SameKey(m.key, k, false)
    ensures forall l :: !SameKey(l, k, false) ==> Former(Without(s, k, false), l, false) == Former(s, l, false)
  {
    hide SameKey;
    WithoutFacts(s, k, false);
    var f := FindKey(s, k, false);
    if f.Some? {
      forall l | !SameKey(l, k, false) ensures Former(Without(s, k, false), l, false) == Former(s, l, false) {
        VariantOf(l, s[f.value].key, k);
        FormerWithout(s, f.value, l);
      }
    }
  }

  lemma VariantOf(a: Text, b: Text, k: Text)
    requires SameKey(b, k, false)
    ensures SameKey(a, b, false) == SameKey(b, a, false) == SameKey(a, k, false)
  {
  }

  /** Taking out a member with another key leaves the first match of a key. */
  lemma FormerWithout(s: Members, i: nat, l: Text)
    requires i < |s| && !SameKey(s[i].key, l, false)
    ensures Former(RemoveAt(s, i), l, false) == Former(s, l, false)
  {
    var r := RemoveAt(s, i);
    var f := FindKey(s, l, false);
    assert forall j :: 0 <= j < |r| ==> r[j] == s[if j < i then j else j + 1];
    if f.Some? {
      var j := if f.value < i then f.value else f.value - 1;
      assert r[j] == s[f.value];
      assert FindKey(r, l, false) == Some(j);
    } else {
      assert FindKey(r, l, false) == None;
    }
  }

  lemma FormerBefore(s: Members, m: Member<Json>, l: Text)
    requires !SameKey(m.key, l, false)
    ensures Former(s + [m], l, false) == Former(s, l, false)
  {
    var r := s + [m];
    var f := FindKey(s, l, false);
    var g := FindKey(r, l, false);
    if f.Some? {
      assert r[f.value] == s[f.value] && forall j :: 0 <= j < f.value ==> r[j] == s[j];
      assert g.Some? && !(g.value < f.value) && !(f.value < g.value);
    } else {
      assert g == None;
    }
  }

  lemma AppendUniqueFolded(s: Members, m: Member<Json>)
    requires UniqueKeys(s, false) && Free(s, m.key, false)
    ensures UniqueKeys(s + [m], false)
  {
  }

  lemma {:induction false} MergeMembersFrom(cur: Members, ps: Members)
    requires UniqueKeys(cur, false) && UniqueKeys(ps, false)
    requires forall i :: 0 <= i < |ps| ==> ps[i].value.Null? || Fits(ps[i].value)
    ensures MergeMembers(cur, ps, false).Some? && MergeMembers(cur, ps, false).value.Object?
    ensures MergedFrom(MergeMembers(cur, ps, false).value.members, cur, ps)
    decreases ps, 0
  {
    hide MergePatch, Fits, SameKey;
    if ps != [] {
      var p, rest := ps[0], Without(cur, ps[0].key, false);
      WithoutFirst(cur, p.key);
      assert forall i, j :: 0 <= i < j < |ps| - 1 ==> ps[1..][i] == ps[i + 1] && ps[1..][j] == ps[j + 1];
      if p.value.Null? {
        MergeMembersFrom(rest, ps[1..]);
        MergeStepFrom(cur, ps, rest, MergeMembers(rest, ps[1..], false).value.members);
      } else {
        MergeSome(Former(cur, p.key, false), p.value, false);
        var m := Merged(cur, p).value;
        AppendUniqueFolded(rest, m);
        MergeMembersFrom(rest + [m], ps[1..]);
        MergeStepFrom(cur, ps, rest + [m], MergeMembers(rest + [m], ps[1..], false).value.members);
      }
    }
  }

  /** Whatever the keys, a merge fails only when a value is too high to duplicate. */
  lemma {:induction false} MergeSome(target: Option<Json>, patch: Json, cs: bool)
    requires Fits(patch)
    ensures MergePatch(target, patch, cs).Some?
    decreases patch, 1
  {
    match patch
    case Object(ps) =>
      MergeMembersSome(if target.Some? && target.value.Object? then target.value.members else [], ps, cs);
    case _ => DuplicateIsIdentity(patch);
  }

  lemma {:induction false} MergeMembersSome(cur: Members, ps: Members, cs: bool)
    requires forall i :: 0 <= i < |ps| ==> ps[i].value.Null? || Fits(ps[i].value)
    ensures MergeMembers(cur, ps, cs).Some?
    decreases ps, 0
  {
    if ps != [] {
      var at := FindKey(cur, ps[0].key, cs);
      var rest := if at.Some? then RemoveAt(cur, at.value) else cur;
      if ps[0].value.Null? {
        MergeMembersSome(rest, ps[1..], cs);
      } else {
        var former := if at.Some? then Some(cur[at.value].value) else None;
        MergeSome(former, ps[0].value, cs);
        MergeMembersSome(rest + [Member(ps[0].key, MergePatch(former, ps[0].value, cs).value)], ps[1..], cs);
      }
    }
  }

  /** One turn of the loop: the members of the rest of the merge are those of the whole. */
  lemma MergeStepFrom(cur: Members, ps: Members, next: Members, r: Members)
    requires UniqueKeys(cur, false) && UniqueKeys(ps, false) && ps != []
    requires !ps[0].value.Null? ==> Merged(cur, ps[0]).Some?
    requires next == Without(cur, ps[0].key, false) + if ps[0].value.Null? then [] else [Merged(cur, ps[0]).value]
    requires MergedFrom(r, next, ps[1..])
    ensures MergedFrom(r, cur, ps)
  {
    hide MergePatch, SameKey, Merged, Without;
    var p, rest, qs := ps[0], Without(cur, ps[0].key, false), ps[1..];
    WithoutFirst(cur, p.key);
    assert forall i :: 0 <= i < |qs| ==> qs[i] == ps[i + 1];
    forall m | m in cur && Free(ps, m.key, false) ensures m in r {
      assert !SameKey(ps[0].key, m.key, false);
      SymmetricKey(m.key, p.key);
      assert m in rest && m in next;
      assert Free(qs, m.key, false);
    }
    forall m | m in r ensures Origin(m, cur, ps) {
      assert Origin(m, next, qs);
      if m in next && Free(qs, m.key, false) {
        if m in rest {
          SymmetricKey(m.key, p.key);
          assert Free(ps, m.key, false);
        } else {
          MergedHasKey(cur, p);
          assert ps[0].key == m.key;
        }
      } else {
        var i :| 0 <= i < |qs| && qs[i].key == m.key && !qs[i].value.Null?;
        assert ps[i + 1].key == m.key;
      }
    }
    forall i | 0 <= i < |ps| && !ps[i].value.Null? ensures Merged(cur, ps[i]).Some? && Merged(cur, ps[i]).value in r {
      if i == 0 {
        FirstMergedStays(cur, ps, next, r);
      } else {
        LaterMerged(cur, ps, next, i);
        assert ps[i] == qs[i - 1];
      }
    }
  }

  lemma SymmetricKey(a: Text, b: Text)
    ensures SameKey(a, b, false) == SameKey(b, a, false)
  {
  }

  lemma FirstMergedStays(cur: Members, ps: Members, next: Members, r: Members)
    requires UniqueKeys(ps, false) && ps != [] && !ps[0].value.Null?
    requires Merged(cur, ps[0]).Some? && Merged(cur, ps[0]).value in next && MergedFrom(r, next, ps[1..])
    ensures Merged(cur, ps[0]).value in r
  {
    var m := Merged(cur, ps[0]).value;
    forall i | 0 <= i < |ps| - 1 ensures !SameKey(ps[1..][i].key, m.key, false) {
      SymmetricKey(ps[i + 1].key, ps[0].key);
    }
    assert Free(ps[1..], m.key, false);
  }

  lemma LaterMerged(cur: Members, ps: Members, next: Members, i: nat)
    requires UniqueKeys(cur, false) && UniqueKeys(ps, false) && 0 < i < |ps|
    requires !ps[0].value.Null? ==> Merged(cur, ps[0]).Some?
    requires next == Without(cur, ps[0].key, false) + if ps[0].value.Null? then [] else [Merged(cur, ps[0]).value]
    ensures Merged(next, ps[i]) == Merged(cur, ps[i])
  {
    hide MergePatch, Without;
    var rest := Without(cur, ps[0].key, false);
    WithoutFirst(cur, ps[0].key);
    assert !SameKey(ps[0].key, ps[i].key, false);
    SymmetricKey(ps[0].key, ps[i].key);
    if ps[0].value.Null? {
      assert next == rest;
    } else {
      FormerBefore(rest, Merged(cur, ps[0]).value, ps[i].key);
    }
  }

  /** No key of the target and key of the patch, at the same place, differ by case alone. */
  predicate NoClash(target: Option<Value>, patch: Value)
    decreases patch
  {
    patch.VObject? ==>
      var t, p := MembersOf(target), patch.members;
      && (forall k, l :: k in t && l in p && SameKey(k, l, false) ==> k == l)
      && (forall l :: l in p ==> NoClash(Get(t, l), p[l]))
  }

  lemma UniqueFoldedValues(ms: Members)
    requires KeysUnique(Object(ms), false)
    ensures UniqueKeys(ms, true) && forall i :: 0 <= i < |ms| ==> KeysUnique(ms[i].value, false)
  {
    UniqueFoldedIsUnique(ms);
  }

  lemma ValueInMembers(s: Members, m: Member<Json>)
    requires UniqueKeys(s, true) && m in s
    ensures m.key in AbsMembers(s) && AbsMembers(s)[m.key] == Abs(m.value)
  {
    var i :| 0 <= i < |s| && s[i] == m;
    AbsMembersAt(s, i);
  }

  lemma MemberOfValue(s: Members, k: Text) returns (m: Member<Json>)
    requires k in AbsMembers(s) && UniqueKeys(s, true)
    ensures m in s && m.key == k && AbsMembers(s)[k] == Abs(m.value)
  {
    AbsMembersKeys(s);
    var i :| 0 <= i < |s| && s[i].key == k;
    AbsMembersAt(s, i);
    m := s[i];
  }

  lemma OnlyVariant(ps: Members, k: Text, l: Text)
    requires UniqueKeys(ps, false) && l in AbsMembers(ps) && SameKey(k, l, false) && k != l
    ensures k !in AbsMembers(ps)
  {
    AbsMembersKeys(ps);
    var j :| 0 <= j < |ps| && ps[j].key == l;
    forall i | 0 <= i < |ps| ensures ps[i].key != k {
      if i != j {
        assert !SameKey(ps[if i < j then i else j].key, ps[if i < j then j else i].key, false);
      }
    }
  }

  /** A target key that the patch has in another case is lost, though the standard keeps it. */
  lemma ClashLoses(cur: Members, ps: Members, r: Members, k: Text, l: Text)
    requires UniqueKeys(cur, false) && UniqueKeys(ps, false) && MergedFrom(r, cur, ps)
    requires k in AbsMembers(cur) && l in AbsMembers(ps) && SameKey(k, l, false) && k != l
    ensures AbsMembers(r) != RfcMembers(AbsMembers(cur), VObject(AbsMembers(ps)))
  {
    hide MergePatch, Merged, Abs;
    UniqueFoldedIsUnique(ps);
    UniqueFoldedIsUnique(r);
    OnlyVariant(ps, k, l);
    var pl := MemberOfValue(ps, l);
    var j :| 0 <= j < |ps| && ps[j] == pl;
    assert !Free(ps, k, false) by {
      SymmetricKey(k, l);
    }
    if k in AbsMembers(r) {
      var m := MemberOfValue(r, k);
      assert Origin(m, cur, ps);
      AbsMembersKeys(ps);
    }
  }

  lemma FormerIsGet(cur: Members, l: Text)
    requires UniqueKeys(cur, false)
    requires forall k :: k in AbsMembers(cur) && SameKey(k, l, false) ==> k == l
    ensures AbsOption(Former(cur, l, false)) == Get(AbsMembers(cur), l)
  {
    UniqueFoldedIsUnique(cur);
    AbsMembersKeys(cur);
    var f := FindKey(cur, l, false);
    if f.Some? {
      AbsMembersAt(cur, f.value);
    } else if l in AbsMembers(cur) {
      var m := MemberOfValue(cur, l);
    }
  }

  /** Without a clash, every key of the merged object is as the standard has it, except where it clashes below. */
  lemma MergedKey(cur: Members, ps: Members, r: Members, k: Text)
    requires UniqueKeys(cur, false) && UniqueKeys(ps, false) && MergedFrom(r, cur, ps)
    requires forall k, l :: k in AbsMembers(cur) && l in AbsMembers(ps) && SameKey(k, l, false) ==> k == l
    ensures var t, p := AbsMembers(cur), AbsMembers(ps);
            k in AbsMembers(r) <==> k in t.Keys + p.Keys && !(k in p && p[k] == VNull)
    ensures var t, p := AbsMembers(cur), AbsMembers(ps);
            k in AbsMembers(r) && k !in p ==> AbsMembers(r)[k] == t[k]
  {
    hide MergePatch, Merged;
    var t, p := AbsMembers(cur), AbsMembers(ps);
    UniqueFoldedIsUnique(cur);
    UniqueFoldedIsUnique(ps);
    UniqueFoldedIsUnique(r);
    AbsMembersKeys(ps);
    AbsMembersKeys(cur);
    if k in p {
      var q := MemberOfValue(ps, k);
      var i :| 0 <= i < |ps| && ps[i] == q;
      if !q.value.Null? {
        MergedHasKey(cur, q);
        ValueInMembers(r, Merged(cur, ps[i]).value);
      } else {
        NullIsGone(cur, ps, r, i);
      }
    } else {
      if k in t {
        var m := MemberOfValue(cur, k);
        forall i | 0 <= i < |ps| ensures !SameKey(ps[i].key, k, false) {
          AbsMembersAt(ps, i);
          SymmetricKey(ps[i].key, k);
        }
        assert Free(ps, m.key, false);
        ValueInMembers(r, m);
      } else if k in AbsMembers(r) {
        var m := MemberOfValue(r, k);
        assert Origin(m, cur, ps);
        if m in cur {
          ValueInMembers(cur, m);
        }
      }
    }
  }

  lemma NullIsGone(cur: Members, ps: Members, r: Members, i: nat)
    requires UniqueKeys(ps, false) && MergedFrom(r, cur, ps) && i < |ps| && ps[i].value.Null?
    ensures ps[i].key !in AbsMembers(r)
  {
    var k := ps[i].key;
    assert !Free(ps, k, false) by {
      assert SameKey(ps[i].key, k, false);
    }
    AbsMembersKeys(r);
    forall j | 0 <= j < |r| ensures r[j].key != k {
      assert r[j] in r && Origin(r[j], cur, ps);
      assert forall m :: 0 <= m < |ps| && m != i ==> ps[m].key != k by {
        forall m | 0 <= m < |ps| && m != i ensures ps[m].key != k {
          assert !SameKey(ps[if i < m then i else m].key, ps[if i < m then m else i].key, false);
        }
      }
    }
  }

  lemma MergedHasKey(cur: Members, p: Member<Json>)
    ensures Merged(cur, p).Some? ==> Merged(cur, p).value.key == p.key
  {
  }

  /** The value that a patch member which is not null ends up with. */
  lemma MergedValue(cur: Members, ps: Members, r: Members, l: Text) returns (q: Member<Json>)
    requires UniqueKeys(cur, false) && UniqueKeys(ps, false) && MergedFrom(r, cur, ps)
    requires l in AbsMembers(ps) && AbsMembers(ps)[l] != VNull
    ensures q in ps && q.key == l && Abs(q.value) == AbsMembers(ps)[l]
    ensures MergePatch(Former(cur, l, false), q.value, false).Some? && l in AbsMembers(r)
    ensures AbsMembers(r)[l] == Abs(MergePatch(Former(cur, l, false), q.value, false).value)
  {
    hide MergePatch, Former;
    UniqueFoldedIsUnique(ps);
    UniqueFoldedIsUnique(r);
    q := MemberOfValue(ps, l);
    var i :| 0 <= i < |ps| && ps[i] == q;
    ValueInMembers(r, Merged(cur, ps[i]).value);
  }

  /**
    The default merge, which ignores case, on trees with keys unique modulo case: it
    computes the standard's function exactly if no key of the target differs by case
    alone from a key of the patch at the same place.
   */
  lemma {:induction false} CaseInsensitiveMergeExact(target: Option<Json>, patch: Json)
    requires target.Some? ==> KeysUnique(target.value, false)
    requires KeysUnique(patch, false) && Fits(patch)
    ensures MergePatch(target, patch, false).Some?
    ensures Abs(MergePatch(target, patch, false).value) == Rfc(AbsOption(target), Abs(patch))
            <==> NoClash(AbsOption(target), Abs(patch))
    decreases patch
  {
    if !patch.Object? {
      DuplicateIsIdentity(patch);
    } else {
      hide MergePatch, Merged, Former, NoClash, Rfc;
      var base := if target.Some? && target.value.Object? then target.value.members else [];
      var ps := patch.members;
      UniqueFoldedValues(base);
      UniqueFoldedValues(ps);
      MergeMembersFrom(base, ps);
      var r := MergeMembers(base, ps, false).value.members;
      MergeUnfolds(target, patch, base);
      var t, p := AbsMembers(base), AbsMembers(ps);
      if k, l :| k in t && l in p && SameKey(k, l, false) && k != l {
        ClashLoses(base, ps, r, k, l);
      } else {
        forall l | l in p && p[l] != VNull
          ensures l in AbsMembers(r) && (AbsMembers(r)[l] == Rfc(Get(t, l), p[l]) <==> NoClash(Get(t, l), p[l]))
        {
          var q := MergedValue(base, ps, r, l);
          FormerIsGet(base, l);
          FormerUnique(base, l);
          CaseInsensitiveMergeExact(Former(base, l, false), q.value);
        }
        ExactBelow(base, ps, r);
      }
    }
  }

  lemma FormerUnique(cur: Members, l: Text)
    requires forall i :: 0 <= i < |cur| ==> KeysUnique(cur[i].value, false)
    ensures Former(cur, l, false).Some? ==> KeysUnique(Former(cur, l, false).value, false)
  {
  }

  lemma MergeUnfolds(target: Option<Json>, patch: Json, base: Members)
    requires patch.Object? && base == if target.Some? && target.value.Object? then target.value.members else []
    ensures MergePatch(target, patch, false) == MergeMembers(base, patch.members, false)
    ensures MembersOf(AbsOption(target)) == AbsMembers(base)
    ensures var t, p := AbsMembers(base), AbsMembers(patch.members);
            && Rfc(AbsOption(target), Abs(patch)) == VObject(RfcMembers(t, VObject(p)))
            && (NoClash(AbsOption(target), Abs(patch)) <==>
                  && (forall k, l :: k in t && l in p && SameKey(k, l, false) ==> k == l)
                  && (forall l :: l in p ==> NoClash(Get(t, l), p[l])))
  {
  }

  /** All keys together. */
  lemma ExactBelow(cur: Members, ps: Members, r: Members)
    requires UniqueKeys(cur, false) && UniqueKeys(ps, false) && MergedFrom(r, cur, ps)
    requires forall k, l :: k in AbsMembers(cur) && l in AbsMembers(ps) && SameKey(k, l, false) ==> k == l
    requires forall l :: l in AbsMembers(ps) && AbsMembers(ps)[l] != VNull ==>
               l in AbsMembers(r) && (AbsMembers(r)[l] == Rfc(Get(AbsMembers(cur), l), AbsMembers(ps)[l])
                                      <==> NoClash(Get(AbsMembers(cur), l), AbsMembers(ps)[l]))
    ensures AbsMembers(r) == RfcMembers(AbsMembers(cur), VObject(AbsMembers(ps)))
            <==> forall l :: l in AbsMembers(ps) ==> NoClash(Get(AbsMembers(cur), l), AbsMembers(ps)[l])
  {
    hide MergedFrom, Rfc, SameKey;
    var t, p, x := AbsMembers(cur), AbsMembers(ps), AbsMembers(r);
    var y := RfcMembers(t, VObject(p));
    forall k ensures k in x <==> k in y {
      MergedKey(cur, ps, r, k);
    }
    forall k | k in x && k !in p ensures x[k] == y[k] {
      MergedKey(cur, ps, r, k);
    }
    if forall l :: l in p ==> NoClash(Get(t, l), p[l]) {
      forall k | k in x ensures x[k] == y[k] {
      }
      assert x == y;
    } else {
      var l :| l in p && !NoClash(Get(t, l), p[l]);
      assert p[l] != VNull;
      assert x[l] != y[l];
    }
  }
}
