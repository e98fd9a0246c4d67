/**
  Patches applied to the document in memory.

  JsonPatch says what each operation does to a document whose lists are intact. In memory
  a "test" sorts the objects it compares, which can leave an object without a tail, or
  with a tail that is no longer last; an addition to such an object loses members. The
  results here say for which patch lists that never happens.
 */
module JsonPatchInPlace {
  import opened Basics
  import opened JsonTree
  import opened JsonSort
  import opened JsonTails
  import opened JsonPointer
  import opened JsonPatch
  import opened JsonItems

  /** A status and the document, or a write through a pointer that leads out of the list. */
  datatype Outcome = Done(status: int, root: Item) | Wild

  /** The outcome in memory is the one that intact lists give. */
  predicate Agrees(m: Outcome, a: Applied) {
    m.Done? && m.status == a.status && Erase(m.root) == a.root
  }

  function ReplaceItem(t: Item, l: Location, x: Item): (r: Item)
    requires IsLocation(Erase(t), l)
    ensures Erase(r) == ReplaceAt(Erase(t), l, Erase(x))
    decreases |l|
  {
    if l == [] then x else SetItem(t, l[0], ReplaceItem(ItemChild(t, l[0]), l[1..], x))
  }

  // ---------------------------------------------------------------- taking items out

  function DetachFrom(parent: Item, child: Text): (Item, Option<Item>) {
    match parent
    case ArrayItem(items) =>
      (match DecodeIndex(child)
       case None => (parent, None)
       case Some(i) => if i < |items| then (ArrayItem(RemoveAt(items, i)), Some(items[i])) else (parent, None))
    case ObjectItem(ms, tail) =>
      (match FindKey(ms, child, false)
       case None => (parent, None)
       case Some(i) => (ObjectItem(RemoveAt(ms, i), TailRemoved(tail, |ms|, i)), Some(ms[i].value)))
    case _ => (parent, None)
  }

  function DetachItem(root: Item, path: Text, cs: bool): (Item, Option<Item>) {
    match SplitLast(path)
    case None => (root, None)
    case Some((parent, child)) =>
      match Locate(Erase(root), parent, cs)
      case None => (root, None)
      case Some(l) =>
        var (rest, item) := DetachFrom(ItemAt(root, l), DecodeInPlace(child));
        (ReplaceItem(root, l, rest), item)
  }

  function EraseOption(item: Option<Item>): Option<Json> {
    match item case None => None case Some(t) => Some(Erase(t))
  }

  lemma DetachFromErases(parent: Item, child: Text)
    ensures var (rest, item) := DetachFrom(parent, child);
            DetachChild(Erase(parent), child) == (Erase(rest), EraseOption(item))
  {
    hide DecodeIndex, FindKey;
    match parent
    case ArrayItem(items) =>
      var d := DecodeIndex(child);
      if d.Some? && d.value < |items| {
        ItemRemovalErases(items, d.value);
      }
    case ObjectItem(ms, tail) =>
      FindErases(ms, child, false);
      var f := FindKey(ms, child, false);
      if f.Some? {
        MemberRemovalErases(ms, f.value);
      }
    case _ =>
  }

  lemma ItemRemovalErases(s: seq<Item>, i: nat)
    requires i < |s|
    ensures EraseItems(RemoveAt(s, i)) == RemoveAt(EraseItems(s), i)
  {
    hide Erase, EraseItems;
    ItemsAround(s, i);
  }

  lemma ItemsAround(s: seq<Item>, i: nat)
    requires i < |s|
    ensures EraseItems(s[..i] + s[i + 1..]) == EraseItems(s)[..i] + EraseItems(s)[i + 1..]
  {
    hide Erase;
    assert EraseItems(s[..i]) == EraseItems(s)[..i];
    assert EraseItems(s[i + 1..]) == EraseItems(s)[i + 1..];
    assert EraseItems(s[..i] + s[i + 1..]) == EraseItems(s[..i]) + EraseItems(s[i + 1..]);
  }

  lemma MemberRemovalErases(s: seq<Member<Item>>, i: nat)
    requires i < |s|
    ensures EraseMembers(RemoveAt(s, i)) == RemoveAt(EraseMembers(s), i)
  {
    hide Erase, EraseMembers;
    MembersAround(s, i);
  }

  lemma MembersAround(s: seq<Member<Item>>, i: nat)
    requires i < |s|
    ensures EraseMembers(s[..i] + s[i + 1..]) == EraseMembers(s)[..i] + EraseMembers(s)[i + 1..]
  {
    hide Erase;
    assert EraseMembers(s[..i]) == EraseMembers(s)[..i];
    assert EraseMembers(s[i + 1..]) == EraseMembers(s)[i + 1..];
    assert EraseMembers(s[..i] + s[i + 1..]) == EraseMembers(s[..i]) + EraseMembers(s[i + 1..]);
  }

  lemma DetachErases(root: Item, path: Text, cs: bool)
    ensures var (rest, item) := DetachItem(root, path, cs);
            DetachPath(Erase(root), path, cs) == (Erase(rest), EraseOption(item))
  {
    hide DetachFrom, DetachChild, DecodeInPlace;
    var s := SplitLast(path);
    if s.Some? {
      var l := Locate(Erase(root), s.value.0, cs);
      if l.Some? {
        DetachFromErases(ItemAt(root, l.value), DecodeInPlace(s.value.1));
      }
    }
  }

  // ---------------------------------------------------------------- putting items in

  /** An object without the member that an addition replaces. */
  function Cleared(ms: seq<Member<Item>>, tail: Tail, k: Text, cs: bool): (seq<Member<Item>>, Tail) {
    match FindKey(ms, k, cs)
    case None => (ms, tail)
    case Some(i) => (RemoveAt(ms, i), TailRemoved(tail, |ms|, i))
  }

  function AddTo(parent: Item, child: Text, value: Item, cs: bool): Outcome {
    match parent
    case ArrayItem(items) =>
      if child == "-" then Done(0, ArrayItem(items + [value]))
      else
        (match DecodeIndex(child)
         case None => Done(11, parent)
         case Some(i) => if i > |items| then Done(10, parent) else Done(0, ArrayItem(InsertAt(items, i, value))))
    case ObjectItem(ms, tail) =>
      var (rest, t) := Cleared(ms, tail, child, cs);
      if rest != [] && t.Astray? then Wild
      else Done(0, ObjectItem(Appended(rest, t, Member(child, value)), TailAppended(t, |rest|)))
    case _ => Done(9, parent)
  }

  function AddItem(root: Item, path: Text, value: Item, cs: bool): Outcome {
    match SplitLast(path)
    case None => Done(9, root)
    case Some((parent, child)) =>
      match Locate(Erase(root), parent, cs)
      case None => Done(9, root)
      case Some(l) =>
        match AddTo(ItemAt(root, l), DecodeInPlace(child), value, cs)
        case Wild => Wild
        case Done(status, added) => Done(status, ReplaceItem(root, l, added))
  }

  function AddCopy(root: Item, path: Text, value: Option<Json>, cs: bool): Outcome {
    match value
    case None => Done(7, root)
    case Some(v) =>
      match Duplicate(v)
      case None => Done(8, root)
      case Some(copy) => AddItem(root, path, Fresh(copy), cs)
  }

  function ReplaceRootItem(root: Item, value: Option<Json>): Outcome {
    match value
    case None => Done(7, root)
    case Some(v) =>
      match Duplicate(v)
      case None => Done(8, root)
      case Some(copy) => Done(0, Fresh(copy))
  }

  /** The container can take a new child: it is no object, or one whose tail is found. */
  predicate CanTake(parent: Item, child: Text, cs: bool) {
    match parent
    case ObjectItem(ms, tail) => var (rest, t) := Cleared(ms, tail, child, cs); Sound(t, |rest|)
    case _ => true
  }

  /** Nothing is added at the path, or it is added to a container that can take it. */
  predicate TargetSound(root: Item, path: Text, cs: bool) {
    match SplitLast(path)
    case None => true
    case Some((parent, child)) =>
      match Locate(Erase(root), parent, cs)
      case None => true
      case Some(l) => CanTake(ItemAt(root, l), DecodeInPlace(child), cs)
  }

  lemma ClearedErases(ms: seq<Member<Item>>, tail: Tail, k: Text, x: Item, cs: bool)
    ensures AddChild(Object(EraseMembers(ms)), k, Erase(x), cs) ==
            Applied(0, Object(EraseMembers(Cleared(ms, tail, k, cs).0 + [Member(k, x)])))
  {
    FindErases(ms, k, cs);
    var rest := Cleared(ms, tail, k, cs).0;
    assert EraseMembers(rest + [Member(k, x)]) == EraseMembers(rest) + [Member(k, Erase(x))];
    var f := FindKey(ms, k, cs);
    if f.Some? {
      MemberRemovalErases(ms, f.value);
    }
  }

  lemma AddToExactly(parent: Item, child: Text, value: Item, cs: bool)
    ensures Agrees(AddTo(parent, child, value, cs), AddChild(Erase(parent), child, Erase(value), cs)) <==>
            CanTake(parent, child, cs)
  {
    match parent
    case ArrayItem(items) => AddToArrayAgrees(items, child, value, cs);
    case ObjectItem(ms, tail) => AddToObjectExactly(ms, tail, child, value, cs);
    case _ =>
      hide FindKey, DecodeIndex;
  }

  lemma AddToArrayAgrees(items: seq<Item>, child: Text, value: Item, cs: bool)
    ensures Agrees(AddTo(ArrayItem(items), child, value, cs),
            AddChild(Erase(ArrayItem(items)), child, Erase(value), cs))
  {
    hide DecodeIndex;
    assert EraseItems(items + [value]) == EraseItems(items) + [Erase(value)];
    var d := DecodeIndex(child);
    if d.Some? && d.value <= |items| {
      assert EraseItems(InsertAt(items, d.value, value)) == InsertAt(EraseItems(items), d.value, Erase(value));
    }
  }

  lemma AddToObjectExactly(ms: seq<Member<Item>>, tail: Tail, child: Text, value: Item, cs: bool)
    ensures var parent := ObjectItem(ms, tail);
            Agrees(AddTo(parent, child, value, cs), AddChild(Erase(parent), child, Erase(value), cs)) <==>
            CanTake(parent, child, cs)
  {
    hide Cleared, FindKey, AddChild;
    var (rest, t) := Cleared(ms, tail, child, cs);
    ClearedErases(ms, tail, child, value, cs);
    AppendedExactly(rest, t, Member(child, value));
    var added := Appended(rest, t, Member(child, value));
    assert |EraseMembers(added)| == |added| && |EraseMembers(rest + [Member(child, value)])| == |rest| + 1;
  }

  lemma AddItemExactly(root: Item, path: Text, value: Item, cs: bool)
    ensures Agrees(AddItem(root, path, value, cs), AddPath(Erase(root), path, Erase(value), cs)) <==>
            TargetSound(root, path, cs)
  {
    hide AddTo, AddChild, CanTake, DecodeInPlace;
    var s := SplitLast(path);
    if s.Some? {
      var o := Locate(Erase(root), s.value.0, cs);
      if o.Some? {
        var l, child := o.value, DecodeInPlace(s.value.1);
        AddToExactly(ItemAt(root, l), child, value, cs);
        var m, a := AddTo(ItemAt(root, l), child, value, cs), AddChild(At(Erase(root), l), child, Erase(value), cs);
        if m.Done? {
          ReplaceInjective(Erase(root), l, Erase(m.root), a.root);
        }
      }
    }
  }

  predicate CopySound(root: Item, path: Text, value: Option<Json>, cs: bool) {
    value.Some? && Duplicate(value.value).Some? ==> TargetSound(root, path, cs)
  }

  lemma AddCopyExactly(root: Item, path: Text, value: Option<Json>, cs: bool)
    ensures Agrees(AddCopy(root, path, value, cs), AddValue(Erase(root), path, value, cs)) <==>
            CopySound(root, path, value, cs)
  {
    hide AddItem, AddPath, TargetSound, Duplicate;
    if value.Some? && Duplicate(value.value).Some? {
      var copy := Duplicate(value.value).value;
      FreshIsIntact(copy);
      AddItemExactly(root, path, Fresh(copy), cs);
    }
  }

  // ---------------------------------------------------------------- one operation

  /** apply_patch in memory. */
  function ApplyOpInPlace(root: Item, op: Opcode, path: Text, value: Option<Json>, from: Option<Json>,
      cs: bool): Outcome
  {
    match op
    case INVALID => Done(3, root)
    case TEST =>
      (match (Locate(Erase(root), path, cs), value)
       case (Some(l), Some(v)) =>
         var a := ItemAt(root, l);
         Done(if CompareJson(Erase(a), v, cs) then 0 else 1, ReplaceItem(root, l, ComparedItem(a, v, cs)))
       case _ => Done(1, root))
    case REMOVE =>
      if path == "" then Done(0, InvalidItem)
      else
        var (rest, old_item) := DetachItem(root, path, cs);
        if old_item.None? then Done(13, root) else Done(0, rest)
    case REPLACE =>
      if path == "" then ReplaceRootItem(root, value)
      else
        var (rest, old_item) := DetachItem(root, path, cs);
        if old_item.None? then Done(13, root) else AddCopy(rest, path, value, cs)
    case ADD =>
      if path == "" then ReplaceRootItem(root, value) else AddCopy(root, path, value, cs)
    case MOVE =>
      (match from
       case Some(String(f)) =>
         var (rest, item) := DetachItem(root, f, cs);
         if item.None? then Done(5, root) else AddItem(rest, path, item.value, cs)
       case Some(_) => Done(5, root)
       case None => Done(4, root))
    case COPY =>
      (match from
       case Some(String(f)) =>
         (match Locate(Erase(root), f, cs)
          case None => Done(5, root)
          case Some(l) =>
            match Duplicate(At(Erase(root), l))
            case None => Done(6, root)
            case Some(copy) => AddItem(root, path, Fresh(copy), cs))
       case Some(_) => Done(5, root)
       case None => Done(4, root))
  }

  /** The operation adds to no object whose tail is off at that moment. */
  predicate OpSound(root: Item, op: Opcode, path: Text, value: Option<Json>, from: Option<Json>, cs: bool) {
    match op
    case ADD => path != "" ==> CopySound(root, path, value, cs)
    case REPLACE =>
      path != "" ==> var (rest, old_item) := DetachItem(root, path, cs); old_item.Some? ==>
            CopySound(rest, path, value, cs)
    case MOVE =>
      from.Some? && from.value.String? ==>
        var (rest, item) := DetachItem(root, from.value.s, cs); item.Some? ==> TargetSound(rest, path, cs)
    case COPY =>
      from.Some? && from.value.String? ==>
        var l := Locate(Erase(root), from.value.s, cs);
        l.Some? && Duplicate(At(Erase(root), l.value)).Some? ==> TargetSound(root, path, cs)
    case _ => true
  }

  /** An operation acts as on intact lists exactly if it adds to no object whose tail is off. */
  lemma OpExactly(root: Item, op: Opcode, path: Text, value: Option<Json>, from: Option<Json>, cs: bool)
    ensures Agrees(ApplyOpInPlace(root, op, path, value, from, cs),
            ApplyOp(Erase(root), op, path, value, from, cs)) <==>
            OpSound(root, op, path, value, from, cs)
  {
    hide AddCopy, AddValue, CopySound, AddItem, AddPath, TargetSound, DetachItem, DetachPath, Duplicate, Locate;
    match op
    case INVALID =>
    case TEST =>
      var l := Locate(Erase(root), path, cs);
      if l.Some? && value.Some? {
        ComparedErases(ItemAt(root, l.value), value.value, cs);
      }
    case REMOVE =>
      DetachErases(root, path, cs);
    case REPLACE =>
      RootExactly(root, value);
      DetachErases(root, path, cs);
      AddCopyExactly(DetachItem(root, path, cs).0, path, value, cs);
    case ADD =>
      RootExactly(root, value);
      AddCopyExactly(root, path, value, cs);
    case MOVE => MoveExactly(root, path, value, from, cs);
    case COPY => CopyExactly(root, path, value, from, cs);
  }

  lemma MoveExactly(root: Item, path: Text, value: Option<Json>, from: Option<Json>, cs: bool)
    ensures Agrees(ApplyOpInPlace(root, MOVE, path, value, from, cs),
            ApplyOp(Erase(root), MOVE, path, value, from, cs)) <==>
            OpSound(root, MOVE, path, value, from, cs)
  {
    hide AddItem, AddPath, TargetSound, DetachItem, DetachPath, Erase;
    if from.Some? && from.value.String? {
      DetachErases(root, from.value.s, cs);
      var (rest, item) := DetachItem(root, from.value.s, cs);
      if item.Some? {
        AddItemExactly(rest, path, item.value, cs);
      }
    }
  }

  lemma CopyExactly(root: Item, path: Text, value: Option<Json>, from: Option<Json>, cs: bool)
    ensures Agrees(ApplyOpInPlace(root, COPY, path, value, from, cs),
            ApplyOp(Erase(root), COPY, path, value, from, cs)) <==>
            OpSound(root, COPY, path, value, from, cs)
  {
    hide AddItem, AddPath, TargetSound, Duplicate, Locate, Erase;
    if from.Some? && from.value.String? {
      var l := Locate(Erase(root), from.value.s, cs);
      if l.Some? && Duplicate(At(Erase(root), l.value)).Some? {
        var copy := Duplicate(At(Erase(root), l.value)).value;
        FreshIsIntact(copy);
        AddItemExactly(root, path, Fresh(copy), cs);
      }
    }
  }

  lemma RootExactly(root: Item, value: Option<Json>)
    ensures Agrees(ReplaceRootItem(root, value), ReplaceRoot(Erase(root), value))
  {
    if value.Some? && Duplicate(value.value).Some? {
      FreshIsIntact(Duplicate(value.value).value);
    }
  }

  // ---------------------------------------------------------------- a list of patches

  function PatchOp(patch: Json, cs: bool): Opcode {
    match ItemOf(patch, "op", cs) case Some(String(name)) => OpcodeOf(name) case _ => INVALID
  }

  function ApplyInPlace(root: Item, patch: Json, cs: bool): Outcome {
    match ItemOf(patch, "path", cs)
    case Some(String(path)) =>
      ApplyOpInPlace(root, PatchOp(patch, cs), path, ItemOf(patch, "value", cs), ItemOf(patch, "from", cs), cs)
    case _ => Done(2, root)
  }

  /** The patch adds to no object whose tail is off. */
  predicate PatchSound(root: Item, patch: Json, cs: bool) {
    match ItemOf(patch, "path", cs)
    case Some(String(path)) =>
      OpSound(root, PatchOp(patch, cs), path, ItemOf(patch, "value", cs), ItemOf(patch, "from", cs), cs)
    case _ => true
  }

  lemma PatchExactly(root: Item, patch: Json, cs: bool)
    ensures Agrees(ApplyInPlace(root, patch, cs), ApplyPatch(Erase(root), patch, cs)) <==> PatchSound(root, patch, cs)
  {
    hide ApplyOpInPlace, ApplyOp, OpSound, ItemOf, Erase;
    var path := ItemOf(patch, "path", cs);
    if path.Some? && path.value.String? {
      OpExactly(root, PatchOp(patch, cs), path.value.s, ItemOf(patch, "value", cs), ItemOf(patch, "from", cs), cs);
    }
  }

  function RunInPlace(root: Item, patches: seq<Json>, cs: bool): Outcome
    decreases |patches|
  {
    if patches == [] then Done(0, root)
    else
      match ApplyInPlace(root, patches[0], cs)
      case Wild => Wild
      case Done(status, next) => if status != 0 then Done(status, next) else RunInPlace(next, patches[1..], cs)
  }

  /** cJSONUtils_ApplyPatches: stop at the first patch that fails. */
  method ApplyPatches(root: Item, patches: Json, cs: bool) returns (r: Outcome)
    ensures !patches.Array? ==> r == Done(1, root)
    ensures patches.Array? ==> r == RunInPlace(root, patches.items, cs)
  {
    hide ApplyInPlace;
    if !patches.Array? {
      return Done(1, root);
    }
    var current := root;
    var i := 0;
    while i < |patches.items|
      invariant 0 <= i <= |patches.items|
      invariant RunInPlace(current, patches.items[i..], cs) == RunInPlace(root, patches.items, cs)
    {
      assert patches.items[i..][1..] == patches.items[i + 1..];
      var m := ApplyInPlace(current, patches.items[i], cs);
      if m.Wild? || m.status != 0 {
        return m;
      }
      current := m.root;
      i := i + 1;
    }
    return Done(0, current);
  }

  /** No patch of the run adds to an object whose tail is off. */
  predicate RunSound(root: Item, patches: seq<Json>, cs: bool)
    decreases |patches|
  {
    patches == [] ||
    (&& PatchSound(root, patches[0], cs)
     && var m := ApplyInPlace(root, patches[0], cs);
        (m.Done? && m.status == 0 ==> RunSound(m.root, patches[1..], cs)))
  }

  /** After every number of patches the document is the one that intact lists give. */
  ghost predicate AgreesThroughout(root: Item, patches: seq<Json>, cs: bool) {
    forall n :: 0 <= n <= |patches| ==>
          Agrees(RunInPlace(root, patches[..n], cs), ApplySeq(Erase(root), patches[..n], cs))
  }

  lemma StartAgrees(root: Item, cs: bool)
    ensures Agrees(RunInPlace(root, [], cs), ApplySeq(Erase(root), [], cs))
  {
  }

  /** One patch more at the front. */
  lemma RestAgrees(root: Item, patches: seq<Json>, cs: bool, n: nat)
    requires n < |patches|
    ensures var m := ApplyInPlace(root, patches[0], cs);
            Agrees(m, ApplyPatch(Erase(root), patches[0], cs)) ==>
            (Agrees(RunInPlace(root, patches[..n + 1], cs), ApplySeq(Erase(root), patches[..n + 1], cs)) <==>
             (m.status == 0 ==>
                Agrees(RunInPlace(m.root, patches[1..][..n], cs), ApplySeq(Erase(m.root), patches[1..][..n], cs))))
  {
    hide ApplyInPlace, ApplyPatch, Erase;
    var p := patches[..n + 1];
    assert p[0] == patches[0] && p[1..] == patches[1..][..n];
  }

  lemma OnePatch(root: Item, patch: Json, cs: bool)
    ensures RunInPlace(root, [patch], cs) == ApplyInPlace(root, patch, cs)
    ensures ApplySeq(Erase(root), [patch], cs) == ApplyPatch(Erase(root), patch, cs)
  {
    hide ApplyInPlace, ApplyPatch, Erase;
    assert [patch][1..] == [];
    var m, a := ApplyInPlace(root, patch, cs), ApplyPatch(Erase(root), patch, cs);
    assert m.Done? && m.status == 0 ==> RunInPlace(m.root, [], cs) == m;
    assert a.status == 0 ==> ApplySeq(a.root, [], cs) == a;
  }

  /** The run agrees throughout exactly if the first patch agrees and then the rest does. */
  lemma StepAgrees(root: Item, patches: seq<Json>, cs: bool)
    requires patches != []
    ensures var m := ApplyInPlace(root, patches[0], cs);
            AgreesThroughout(root, patches, cs) <==>
            (&& Agrees(m, ApplyPatch(Erase(root), patches[0], cs))
             && (m.status == 0 ==> AgreesThroughout(m.root, patches[1..], cs)))
  {
    hide ApplyInPlace, ApplyPatch, RunInPlace, ApplySeq, Agrees;
    assert patches[..0] == [];
    StartAgrees(root, cs);
    var m := ApplyInPlace(root, patches[0], cs);
    OnePatch(root, patches[0], cs);
    assert patches[..1] == [patches[0]];
    if Agrees(m, ApplyPatch(Erase(root), patches[0], cs)) {
      RestOfRunAgrees(root, patches, cs);
    }
  }

  lemma RestOfRunAgrees(root: Item, patches: seq<Json>, cs: bool)
    requires patches != [] && Agrees(ApplyInPlace(root, patches[0], cs), ApplyPatch(Erase(root), patches[0], cs))
    ensures var m := ApplyInPlace(root, patches[0], cs);
            AgreesThroughout(root, patches, cs) <==> (m.status == 0 ==> AgreesThroughout(m.root, patches[1..], cs))
  {
    hide ApplyInPlace, ApplyPatch, RunInPlace, ApplySeq;
    var m := ApplyInPlace(root, patches[0], cs);
    assert patches[..0] == [];
    StartAgrees(root, cs);
    if AgreesThroughout(root, patches, cs) && m.status == 0 {
      forall n | 0 <= n <= |patches| - 1
        ensures Agrees(RunInPlace(m.root, patches[1..][..n], cs), ApplySeq(Erase(m.root), patches[1..][..n], cs))
      {
        RestAgrees(root, patches, cs, n);
      }
    }
    if m.status == 0 ==> AgreesThroughout(m.root, patches[1..], cs) {
      forall n | 0 <= n <= |patches|
        ensures Agrees(RunInPlace(root, patches[..n], cs), ApplySeq(Erase(root), patches[..n], cs))
      {
        if n > 0 {
          var k := n - 1;
          assert patches[..n] == patches[..k + 1];
          RestAgrees(root, patches, cs, k);
        } else {
          assert patches[..n] == [];
        }
      }
    }
  }

  /**
    A patch list acts on the document in memory as on intact lists, at every step, exactly
    if no patch of it adds to an object whose tail is off at that moment.
   */
  lemma {:induction false} RunExactly(root: Item, patches: seq<Json>, cs: bool)
    ensures AgreesThroughout(root, patches, cs) <==> RunSound(root, patches, cs)
    decreases |patches|
  {
    hide ApplyInPlace, ApplyPatch, PatchSound, RunInPlace, ApplySeq;
    if patches == [] {
      assert patches[..0] == [];
      StartAgrees(root, cs);
    } else {
      var m := ApplyInPlace(root, patches[0], cs);
      PatchExactly(root, patches[0], cs);
      StepAgrees(root, patches, cs);
      if m.Done? && m.status == 0 {
        RunExactly(m.root, patches[1..], cs);
      }
    }
  }

  // ---------------------------------------------------------------- lists without tests

  lemma {:induction false} ReplaceKeepsIntact(t: Item, l: Location, x: Item)
    requires IsLocation(Erase(t), l) && Intact(t) && Intact(x)
    ensures Intact(ReplaceItem(t, l, x))
    decreases |l|
  {
    if l != [] {
      ReplaceKeepsIntact(ItemChild(t, l[0]), l[1..], x);
    }
  }

  lemma DetachKeepsIntact(root: Item, path: Text, cs: bool)
    requires Intact(root)
    ensures var (rest, item) := DetachItem(root, path, cs); Intact(rest) && (item.Some? ==> Intact(item.value))
  {
    hide DecodeInPlace, DecodeIndex;
    var s := SplitLast(path);
    if s.Some? {
      var o := Locate(Erase(root), s.value.0, cs);
      if o.Some? {
        IntactBelow(root, o.value);
        var parent, child := ItemAt(root, o.value), DecodeInPlace(s.value.1);
        DetachFromKeepsIntact(parent, child);
        ReplaceKeepsIntact(root, o.value, DetachFrom(parent, child).0);
      }
    }
  }

  lemma ObjectWithout(ms: seq<Member<Item>>, tail: Tail, i: nat)
    requires Intact(ObjectItem(ms, tail)) && i < |ms|
    ensures Intact(ObjectItem(RemoveAt(ms, i), TailRemoved(tail, |ms|, i)))
  {
    hide TailRemoved, Sound;
    RemovalKeepsSound(tail, |ms|, i);
  }

  lemma DetachFromKeepsIntact(parent: Item, child: Text)
    requires Intact(parent)
    ensures var (rest, item) := DetachFrom(parent, child); Intact(rest) && (item.Some? ==> Intact(item.value))
  {
    match parent
    case ArrayItem(items) =>
      hide DecodeIndex;
    case ObjectItem(ms, tail) =>
      hide TailRemoved, FindKey;
      var f := FindKey(ms, child, false);
      if f.Some? {
        ObjectWithout(ms, tail, f.value);
      }
    case _ =>
  }

  lemma ObjectWith(ms: seq<Member<Item>>, tail: Tail, m: Member<Item>)
    requires Intact(ObjectItem(ms, tail)) && Intact(m.value)
    ensures Intact(ObjectItem(Appended(ms, tail, m), TailAppended(tail, |ms|)))
    ensures ms != [] ==> !tail.Astray?
  {
    hide Appended, TailAppended;
    AppendedExactly(ms, tail, m);
  }

  lemma AddToObjectIntact(ms: seq<Member<Item>>, tail: Tail, child: Text, value: Item, cs: bool)
    requires Intact(ObjectItem(ms, tail)) && Intact(value)
    ensures CanTake(ObjectItem(ms, tail), child, cs)
    ensures var m := AddTo(ObjectItem(ms, tail), child, value, cs); m.Done? && Intact(m.root)
  {
    hide TailRemoved, FindKey, Appended, TailAppended;
    var f := FindKey(ms, child, cs);
    if f.Some? {
      ObjectWithout(ms, tail, f.value);
    }
    var (rest, t) := Cleared(ms, tail, child, cs);
    ObjectWith(rest, t, Member(child, value));
  }

  lemma AddToArrayIntact(items: seq<Item>, child: Text, value: Item, cs: bool)
    requires Intact(ArrayItem(items)) && Intact(value)
    ensures var m := AddTo(ArrayItem(items), child, value, cs); m.Done? && Intact(m.root)
  {
    hide DecodeIndex;
  }

  lemma AddToKeepsIntact(parent: Item, child: Text, value: Item, cs: bool)
    requires Intact(parent) && Intact(value)
    ensures CanTake(parent, child, cs)
    ensures var m := AddTo(parent, child, value, cs); m.Done? && Intact(m.root)
  {
    hide Cleared, DecodeIndex;
    match parent
    case ArrayItem(items) => AddToArrayIntact(items, child, value, cs);
    case ObjectItem(ms, tail) => AddToObjectIntact(ms, tail, child, value, cs);
    case _ =>
  }

  lemma AddKeepsIntact(root: Item, path: Text, value: Item, cs: bool)
    requires Intact(root) && Intact(value)
    ensures TargetSound(root, path, cs)
    ensures var m := AddItem(root, path, value, cs); m.Done? && Intact(m.root)
  {
    hide DecodeInPlace, AddTo, CanTake;
    var s := SplitLast(path);
    if s.Some? {
      var o := Locate(Erase(root), s.value.0, cs);
      if o.Some? {
        IntactBelow(root, o.value);
        AddToKeepsIntact(ItemAt(root, o.value), DecodeInPlace(s.value.1), value, cs);
        ReplaceKeepsIntact(root, o.value, AddTo(ItemAt(root, o.value), DecodeInPlace(s.value.1), value, cs).root);
      }
    }
  }

  lemma CopyKeepsIntact(root: Item, path: Text, value: Option<Json>, cs: bool)
    requires Intact(root)
    ensures CopySound(root, path, value, cs)
    ensures var m := AddCopy(root, path, value, cs); m.Done? && Intact(m.root)
  {
    hide AddItem, TargetSound, Duplicate;
    if value.Some? && Duplicate(value.value).Some? {
      var copy := Duplicate(value.value).value;
      FreshIsIntact(copy);
      AddKeepsIntact(root, path, Fresh(copy), cs);
    }
  }

  /** Every operation but "test" works on intact lists and leaves them intact. */
  lemma OpKeepsIntact(root: Item, op: Opcode, path: Text, value: Option<Json>, from: Option<Json>, cs: bool)
    requires Intact(root) && op != TEST
    ensures OpSound(root, op, path, value, from, cs)
    ensures var m := ApplyOpInPlace(root, op, path, value, from, cs); m.Done? && Intact(m.root)
  {
    hide AddCopy, CopySound, AddItem, TargetSound, DetachItem, Duplicate, Locate, Erase;
    match op
    case INVALID =>
    case REMOVE =>
      DetachKeepsIntact(root, path, cs);
    case REPLACE =>
      RootIntact(root, value);
      DetachKeepsIntact(root, path, cs);
      CopyKeepsIntact(DetachItem(root, path, cs).0, path, value, cs);
    case ADD =>
      RootIntact(root, value);
      CopyKeepsIntact(root, path, value, cs);
    case MOVE =>
      if from.Some? && from.value.String? {
        DetachKeepsIntact(root, from.value.s, cs);
        var (rest, item) := DetachItem(root, from.value.s, cs);
        if item.Some? {
          AddKeepsIntact(rest, path, item.value, cs);
        }
      }
    case COPY =>
      if from.Some? && from.value.String? {
        var l := Locate(Erase(root), from.value.s, cs);
        if l.Some? && Duplicate(At(Erase(root), l.value)).Some? {
          var copy := Duplicate(At(Erase(root), l.value)).value;
          FreshIsIntact(copy);
          AddKeepsIntact(root, path, Fresh(copy), cs);
        }
      }
  }

  lemma RootIntact(root: Item, value: Option<Json>)
    requires Intact(root)
    ensures Intact(ReplaceRootItem(root, value).root)
  {
    if value.Some? && Duplicate(value.value).Some? {
      FreshIsIntact(Duplicate(value.value).value);
    }
  }

  /** A list of patches without a test acts on a fresh document as on intact lists. */
  lemma {:induction false} RunWithoutTests(root: Item, patches: seq<Json>, cs: bool)
    requires Intact(root)
    requires forall i :: 0 <= i < |patches| ==> PatchOp(patches[i], cs) != TEST
    ensures RunSound(root, patches, cs)
    ensures Agrees(RunInPlace(root, patches, cs), ApplySeq(Erase(root), patches, cs))
    decreases |patches|
  {
    hide ApplyOpInPlace, OpSound, PatchOp, ApplyPatch, ItemOf, Erase;
    if patches != [] {
      PatchExactly(root, patches[0], cs);
      var path := ItemOf(patches[0], "path", cs);
      if path.Some? && path.value.String? {
        OpKeepsIntact(root, PatchOp(patches[0], cs), path.value.s, ItemOf(patches[0], "value", cs),
                      ItemOf(patches[0], "from", cs), cs);
      }
      var m := ApplyInPlace(root, patches[0], cs);
      if m.status == 0 {
        RunWithoutTests(m.root, patches[1..], cs);
      }
    }
  }
}
