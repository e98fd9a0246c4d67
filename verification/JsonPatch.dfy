/**
  JSON Patch (RFC 6902) as cJSON_Utils applies it.

  The document is a value and its nodes are named by locations; a patch is itself a JSON
  object, read the way the source reads it. Statuses are the source's numbers.
 */
module JsonPatch {
  import opened Basics
  import opened Decimals
  import opened JsonTree
  import opened JsonSort
  import opened JsonPointer

  // ---------------------------------------------------------------- decode_pointer_inplace

  /**
    The bytes of the buffer once the decoding loop stops, read cursor `r`, write cursor `w`.
    An ordinary byte is skipped, not copied, and "~1" writes one place too far right.
   */
  function DecodeFrom(b: Text, r: nat, w: nat): Text
    requires w <= r <= |b|
    decreases |b| - r
  {
    if r == |b| then b[..w]
    else if b[r] == '~' then
      if r + 1 < |b| && b[r + 1] == '0' then DecodeFrom(b[w := '~'], r + 2, w + 1)
      else if r + 1 < |b| && b[r + 1] == '1' then DecodeFrom(b[w + 1 := '/'], r + 2, w + 1)
      else b
    else DecodeFrom(b, r + 1, w + 1)
  }

  function DecodeInPlace(s: Text): Text {
    DecodeFrom(s, 0, 0)
  }

  /** The loop itself, on the buffer; `length` is where the string now ends. */
  method DecodePointerInPlace(a: array<char>) returns (length: nat)
    modifies a
    ensures length <= a.Length
    ensures a[..length] == DecodeInPlace(old(a[..]))
  {
    var r, w := 0, 0;
    assert a[..] == old(a[..]);
    while r < a.Length
      invariant 0 <= w <= r <= a.Length
      invariant DecodeFrom(a[..], r, w) == DecodeInPlace(old(a[..]))
      decreases a.Length - r
    {
      ghost var b := a[..];
      if a[r] == '~' {
        if r + 1 < a.Length && a[r + 1] == '0' {
          a[w] := '~';
          assert a[..] == b[w := '~'];
        } else if r + 1 < a.Length && a[r + 1] == '1' {
          a[w + 1] := '/';
          assert a[..] == b[w + 1 := '/'];
        } else {
          assert a[..a.Length] == b;
          return a.Length;
        }
        r := r + 1;
      }
      r, w := r + 1, w + 1;
    }
    assert a[..][..w] == a[..w];
    return w;
  }

  lemma {:induction false} DecodeWithoutTilde(s: Text, r: nat)
    requires r <= |s| && '~' !in s
    ensures DecodeFrom(s, r, r) == s
    decreases |s| - r
  {
    if r < |s| {
      DecodeWithoutTilde(s, r + 1);
    } else {
      assert s[..r] == s;
    }
  }

  /** What decoding makes of an encoded key: byte `i` of the outcome, `b` being the buffer. */
  function DecodedByte(k: Text, b: Text, w: nat, i: nat): char
    requires i < |k| && i < |b|
  {
    if k[i] == '~' then '~' else if i > w && k[i - 1] == '/' then '/' else b[i]
  }

  lemma EncodeStep(k: Text, w: nat)
    requires w < |k|
    ensures Encode(k[w..]) == (if k[w] == '/' then "~1" else if k[w] == '~' then "~0" else [k[w]]) + Encode(k[w + 1..])
  {
    assert k[w..][1..] == k[w + 1..];
  }

  /** The buffer after the turn that decodes byte `w` of the key. */
  function Turned(k: Text, b: Text, w: nat): Text
    requires w < |k| && w + 1 < |b|
  {
    if k[w] == '~' then b[w := '~'] else if k[w] == '/' then b[w + 1 := '/'] else b
  }

  /** One turn of the decoding of an encoded key. */
  lemma DecodeTurn(k: Text, b: Text, r: nat, w: nat)
    requires w <= r <= |b| && w < |k| && b[r..] == Encode(k[w..])
    ensures var n := if k[w] == '~' || k[w] == '/' then 2 else 1;
            && r + n <= |b| && b[r + n..] == Encode(k[w + 1..])
            && (n == 2 ==> DecodeFrom(b, r, w) == DecodeFrom(Turned(k, b, w), r + 2, w + 1)
                           && Turned(k, b, w)[r + 2..] == b[r + 2..])
            && (n == 1 ==> DecodeFrom(b, r, w) == DecodeFrom(b, r + 1, w + 1) && b[r] == k[w])
  {
    hide Encode;
    EncodeStep(k, w);
    assert b[r] == b[r..][0];
    if k[w] == '/' || k[w] == '~' {
      assert b[r + 1] == b[r..][1];
      assert b[r + 2..] == b[r..][2..];
    } else {
      assert b[r + 1..] == b[r..][1..];
    }
  }

  /** Seen from before the turn, the decoded bytes are those of the buffer before the turn. */
  lemma DecodedBytes(k: Text, b: Text, c: Text, w: nat, d: Text)
    requires w < |k| == |d| && |k| <= |b| == |c|
    requires if k[w] == '~' then c == b[w := '~']
             else if k[w] == '/' then w + 1 < |b| && c == b[w + 1 := '/']
             else c == b
    requires forall i :: 0 <= i < w + 1 ==> d[i] == c[i]
    requires forall i :: w + 1 <= i < |k| ==> d[i] == DecodedByte(k, c, w + 1, i)
    ensures forall i :: 0 <= i < w ==> d[i] == b[i]
    ensures forall i :: w <= i < |k| ==> d[i] == DecodedByte(k, b, w, i)
  {
  }

  lemma {:induction false} DecodeEncoded(k: Text, b: Text, r: nat, w: nat)
    requires w <= r <= |b| && w <= |k| && b[r..] == Encode(k[w..])
    ensures |k| <= |b| && |DecodeFrom(b, r, w)| == |k|
    ensures forall i :: 0 <= i < w ==> DecodeFrom(b, r, w)[i] == b[i]
    ensures forall i :: w <= i < |k| ==> DecodeFrom(b, r, w)[i] == DecodedByte(k, b, w, i)
    decreases |k| - w
  {
    EncodeLonger(k[w..]);
    if w < |k| {
      DecodeTurn(k, b, r, w);
      hide Encode, DecodeFrom, DecodedByte;
      if k[w] == '/' || k[w] == '~' {
        var c := Turned(k, b, w);
        DecodeEncoded(k, c, r + 2, w + 1);
        DecodedBytes(k, b, c, w, DecodeFrom(b, r, w));
      } else {
        DecodeEncoded(k, b, r + 1, w + 1);
        DecodedBytes(k, b, b, w, DecodeFrom(b, r, w));
      }
    } else {
      NothingEncodedLeft(k);
    }
  }

  lemma NothingEncodedLeft(k: Text)
    ensures Encode(k[|k|..]) == []
  {
  }

  lemma {:induction false} EncodeLonger(k: Text)
    ensures |Encode(k)| >= |k|
  {
    if k != [] {
      EncodeLonger(k[1..]);
    }
  }

  /** A key that the in-place decoding gives back: no '/', and no byte shifted by an earlier '~'. */
  predicate Survives(k: Text) {
    '/' !in k && |Encode(k)| >= |k| && forall i :: 0 <= i < |k| ==> k[i] == '~' || Encode(k)[i] == k[i]
  }

  /** decode_pointer_inplace undoes the encoding of exactly these keys. */
  lemma DecodeUndoesEncode(k: Text)
    ensures DecodeInPlace(Encode(k)) == k <==> Survives(k)
  {
    var b := Encode(k);
    assert k[0..] == k && b[0..] == b;
    DecodeEncoded(k, b, 0, 0);
    var d := DecodeInPlace(b);
    EncodeLonger(k);
    if d == k && '/' in k {
      var i :| 0 <= i < |k| && k[i] == '/';
      FirstSlashLost(k, i);
    }
    if Survives(k) {
      assert forall i :: 0 <= i < |k| ==> d[i] == k[i];
    }
  }

  lemma FirstSlashLost(k: Text, i: nat)
    requires i < |k| && k[i] == '/'
    requires |Encode(k)| >= |k| && |DecodeInPlace(Encode(k))| == |k|
    requires forall j :: 0 <= j < |k| ==> DecodeInPlace(Encode(k))[j] == DecodedByte(k, Encode(k), 0, j)
    ensures DecodeInPlace(Encode(k)) != k
  {
    EncodeHasNoSlash(k);
    if i > 0 && k[i - 1] == '/' {
      FirstSlashLost(k, i - 1);
    } else {
      assert DecodedByte(k, Encode(k), 0, i) == Encode(k)[i];
    }
  }

  /** Two keys that the decoding damages: "~a" comes back as "~0" and "/" as "~". */
  lemma DecodeDamagesExamples()
    ensures Encode("~a") == "~0a" && DecodeInPlace("~0a") == "~0"
    ensures Encode("/") == "~1" && DecodeInPlace("~1") == "~"
  {
    assert "~a"[1..] == "a" && "a"[1..] == "" && "/"[1..] == "";
    assert DecodeFrom("~0a", 0, 0) == DecodeFrom("~0a", 2, 1);
    assert DecodeFrom("~0a", 2, 1) == DecodeFrom("~0a", 3, 2) == "~0a"[..2];
    assert "~1"[1 := '/'] == "~/";
  }

  lemma {:induction false} PlainKeysSurvive(k: Text)
    requires '/' !in k && '~' !in k
    ensures Encode(k) == k && Survives(k)
  {
    if k != [] {
      PlainKeysSurvive(k[1..]);
      assert k == [k[0]] + k[1..];
    }
  }

  /** A byte of an encoding is part of an escape or a byte of the key at or before its place. */
  lemma {:induction false} EncodedByte(k: Text, i: nat) returns (j: nat)
    requires i < |Encode(k)| && '/' !in k
    ensures j <= i && j < |k| && (Encode(k)[i] == k[j] || Encode(k)[i] == '~' || Encode(k)[i] == '0')
  {
    var w := if k[0] == '~' then 2 else 1;
    if i < w {
      j := 0;
    } else {
      var q := EncodedByte(k[1..], i - w);
      j := q + 1;
    }
  }

  lemma {:induction false} EncodeAfter(k: Text, p: nat)
    requires p < |k| && k[p] == '~' && '~' !in k[..p] && '/' !in k[..p]
    ensures Encode(k) == k[..p] + "~0" + Encode(k[p + 1..])
  {
    if p == 0 {
      assert k[..0] == [] && k[0 + 1..] == k[1..];
    } else {
      assert k[1..][..p - 1] == k[..p][1..] && k[1..][p..] == k[p + 1..];
      assert k[0] == k[..p][0];
      EncodeAfter(k[1..], p - 1);
      assert k[..p] == [k[0]] + k[1..][..p - 1];
    }
  }

  /** Every byte that is not a '~' equals, modulo case, the byte of the encoding in its place. */
  predicate SurvivesFolded(k: Text) {
    '/' !in k && |Encode(k)| >= |k| && forall i :: 0 <= i < |k| ==>
          k[i] == '~' || ToLower(Encode(k)[i]) == ToLower(k[i])
  }

  /** Behind the first '~' of such a key there is nothing but '~' and '0'. */
  lemma {:induction false} OnlyEscapesFollow(k: Text, p: nat, i: nat)
    requires SurvivesFolded(k) && p < i < |k| && k[p] == '~' && '~' !in k[..p]
    ensures (k[i] == '~' || k[i] == '0') && (k[i] == '~' || Encode(k)[i] == k[i])
    decreases i
  {
    EncodeAfter(k, p);
    var e := Encode(k)[i];
    assert e == '~' || e == '0' by {
      if i > p + 1 {
        assert e == Encode(k[p + 1..])[i - p - 2];
        var j := EncodedByte(k[p + 1..], i - p - 2);
        OnlyEscapesFollow(k, p, p + 1 + j);
      }
    }
  }

  /** A key that comes back equal modulo case comes back equal. */
  lemma SurvivesExactly(k: Text)
    ensures SurvivesFolded(k) <==> Survives(k)
  {
    if SurvivesFolded(k) {
      if '~' !in k {
        PlainKeysSurvive(k);
      } else {
        var p := FirstTilde(k);
        EncodeAfter(k, p);
        forall i | 0 <= i < |k| ensures k[i] == '~' || Encode(k)[i] == k[i] {
          if i > p {
            OnlyEscapesFollow(k, p, i);
          }
        }
      }
    }
  }

  lemma {:induction false} FirstTilde(k: Text) returns (p: nat)
    requires '~' in k
    ensures p < |k| && k[p] == '~' && '~' !in k[..p] && forall i :: 0 <= i < p ==> k[i] != '~'
  {
    if k[0] == '~' {
      p := 0;
    } else {
      var q := FirstTilde(k[1..]);
      p := q + 1;
      assert k[..p] == [k[0]] + k[1..][..q];
    }
  }

  /** How many '~' there are before position `j`. */
  function Tildes(k: Text, j: nat): nat
    requires j <= |k|
  {
    if j == 0 then 0 else Tildes(k[1..], j - 1) + if k[0] == '~' then 1 else 0
  }

  /** Where byte `j` of a key goes in its encoding. */
  function Place(k: Text, j: nat): nat
    requires j <= |k|
  {
    j + Tildes(k, j)
  }

  lemma {:induction false} EncodedAt(k: Text, j: nat)
    requires '/' !in k && j < |k|
    ensures Place(k, j) < |Encode(k)| && Encode(k)[Place(k, j)] == k[j]
    ensures k[j] == '~' ==> Place(k, j) + 1 < |Encode(k)| && Encode(k)[Place(k, j) + 1] == '0'
  {
    if j > 0 {
      EncodedAt(k[1..], j - 1);
    }
  }

  lemma {:induction false} ByteComesFrom(k: Text, i: nat) returns (j: nat)
    requires '/' !in k && i < |Encode(k)|
    ensures j < |k| && (i == Place(k, j) || (k[j] == '~' && i == Place(k, j) + 1))
  {
    var w := if k[0] == '~' then 2 else 1;
    if i < w {
      j := 0;
    } else {
      var q := ByteComesFrom(k[1..], i - w);
      j := q + 1;
    }
  }

  lemma {:induction false} TildeBefore(k: Text, j: nat)
    requires j <= |k| && Tildes(k, j) > 0
    ensures exists i :: 0 <= i < j && k[i] == '~'
  {
    if k[0] != '~' {
      TildeBefore(k[1..], j - 1);
      var i :| 0 <= i < j - 1 && k[1..][i] == '~';
      assert k[i + 1] == '~';
    }
  }

  /**
    Survival by the characters of the key: no '/'; behind a '~' nothing but '~' and '0'; and
    every '~' at `j` with `t` others before it has another '~' at `j + t`, if the key goes so far.
   */
  predicate ByCharacters(k: Text) {
    && '/' !in k
    && (forall i, j :: 0 <= i < j < |k| && k[i] == '~' ==> k[j] == '~' || k[j] == '0')
    && (forall j :: 0 <= j < |k| && k[j] == '~' && Place(k, j) < |k| ==> k[Place(k, j)] == '~')
  }

  lemma SurvivesByCharacters(k: Text)
    ensures Survives(k) <==> ByCharacters(k)
  {
    EncodeLonger(k);
    if Survives(k) {
      SurvivesExactly(k);
      forall i, j | 0 <= i < j < |k| && k[i] == '~' ensures k[j] == '~' || k[j] == '0' {
        var p := FirstTilde(k);
        OnlyEscapesFollow(k, p, j);
      }
      forall j | 0 <= j < |k| && k[j] == '~' && Place(k, j) < |k| ensures k[Place(k, j)] == '~' {
        EncodedAt(k, j);
      }
    }
    if ByCharacters(k) {
      forall i | 0 <= i < |k| ensures k[i] == '~' || Encode(k)[i] == k[i] {
        var j := ByteComesFrom(k, i);
        EncodedAt(k, j);
        if Tildes(k, j) > 0 {
          TildeBefore(k, j);
        }
      }
    }
  }

  /** The decoded key matches the key modulo case only if it is the key. */
  lemma DecodedVariant(k: Text)
    ensures SameKey(k, DecodeInPlace(Encode(k)), false) <==> Survives(k)
  {
    var b := Encode(k);
    assert k[0..] == k && b[0..] == b;
    DecodeEncoded(k, b, 0, 0);
    DecodeUndoesEncode(k);
    EncodeLonger(k);
    SurvivesExactly(k);
    var d := DecodeInPlace(b);
    if SameKey(k, d, false) {
      assert forall i :: 0 <= i < |k| ==> ToLower(k[i]) == Lower(k)[i] == Lower(d)[i] == ToLower(d[i]);
      if '/' in k {
        var i :| 0 <= i < |k| && k[i] == '/';
        FirstSlashChanges(k, i);
      }
    }
  }

  lemma FirstSlashChanges(k: Text, i: nat)
    requires i < |k| && k[i] == '/'
    requires |Encode(k)| >= |k| && |DecodeInPlace(Encode(k))| == |k|
    requires forall j :: 0 <= j < |k| ==> DecodeInPlace(Encode(k))[j] == DecodedByte(k, Encode(k), 0, j)
    ensures exists j :: 0 <= j < |k| && ToLower(DecodeInPlace(Encode(k))[j]) != ToLower(k[j])
  {
    EncodeHasNoSlash(k);
    if i > 0 && k[i - 1] == '/' {
      FirstSlashChanges(k, i - 1);
    } else {
      var e := Encode(k)[i];
      assert DecodedByte(k, Encode(k), 0, i) == e && e in Encode(k);
      assert ToLower(e) != '/';
    }
  }

  // ---------------------------------------------------------------- applying one operation

  datatype Opcode = INVALID | ADD | REMOVE | REPLACE | MOVE | COPY | TEST

  function OpcodeOf(name: Text): Opcode {
    if name == "add" then ADD
    else if name == "remove" then REMOVE
    else if name == "replace" then REPLACE
    else if name == "move" then MOVE
    else if name == "copy" then COPY
    else if name == "test" then TEST
    else INVALID
  }

  /** The status an application returns and the document it leaves behind. */
  datatype Applied = Applied(status: int, root: Json)

  /** get_object_item: the first member with the key, if the node is an object. */
  function ItemOf(v: Json, name: Text, cs: bool): Option<Json> {
    match v
    case Object(ms) =>
      (match FindKey(ms, name, cs)
       case None => None
       case Some(i) => Some(ms[i].value))
    case _ => None
  }

  function LastSlash(p: Text): (r: Option<nat>)
    ensures r.Some? ==> r.value < |p| && p[r.value] == '/' && '/' !in p[r.value + 1..]
    ensures r.None? ==> '/' !in p
  {
    if p == [] then None
    else if p[|p| - 1] == '/' then Some(|p| - 1)
    else LastSlash(p[..|p| - 1])
  }

  /** strrchr: the parent pointer and the child token, cut at the last '/'. */
  function SplitLast(p: Text): Option<(Text, Text)> {
    match LastSlash(p)
    case None => None
    case Some(i) => Some((p[..i], p[i + 1..]))
  }

  function ReplaceAt(v: Json, l: Location, x: Json): Json
    requires IsLocation(v, l)
  {
    if l == [] then x else SetChild(v, l[0], ReplaceAt(ChildAt(v, l[0]), l[1..], x))
  }

  lemma {:induction false} ReplaceInjective(v: Json, l: Location, x: Json, y: Json)
    requires IsLocation(v, l)
    ensures ReplaceAt(v, l, x) == ReplaceAt(v, l, y) ==> x == y
  {
    if l != [] {
      var c := ChildAt(v, l[0]);
      ReplaceInjective(c, l[1..], x, y);
      assert ChildAt(ReplaceAt(v, l, x), l[0]) == ReplaceAt(c, l[1..], x);
      assert ChildAt(ReplaceAt(v, l, y), l[0]) == ReplaceAt(c, l[1..], y);
    }
  }

  /** Take a child out of a container, the child named by a decoded token. */
  function DetachChild(parent: Json, child: Text): (Json, Option<Json>) {
    match parent
    case Array(items) =>
      (match DecodeIndex(child)
       case None => (parent, None)
       case Some(i) => if i < |items| then (Array(RemoveAt(items, i)), Some(items[i])) else (parent, None))
    case Object(ms) =>
      // the key is always looked up case-insensitively
      (match FindKey(ms, child, false)
       case None => (parent, None)
       case Some(i) => (Object(RemoveAt(ms, i)), Some(ms[i].value)))
    case _ => (parent, None)
  }

  /** detach_path: the document without the item at the path, and the item. */
  function DetachPath(root: Json, path: Text, cs: bool): (Json, Option<Json>) {
    match SplitLast(path)
    case None => (root, None)
    case Some((parent, child)) =>
      match Locate(root, parent, cs)
      case None => (root, None)
      case Some(l) =>
        var (rest, item) := DetachChild(At(root, l), DecodeInPlace(child));
        (ReplaceAt(root, l, rest), item)
  }

  /** Put a value under a container at a decoded token. */
  function AddChild(parent: Json, child: Text, value: Json, cs: bool): Applied {
    match parent
    case Array(items) =>
      if child == "-" then Applied(0, Array(items + [value]))
      else
        (match DecodeIndex(child)
         case None => Applied(11, parent)
         case Some(i) => if i > |items| then Applied(10, parent) else Applied(0, Array(InsertAt(items, i, value))))
    case Object(ms) =>
      (match FindKey(ms, child, cs)
       case None => Applied(0, Object(ms + [Member(child, value)]))
       case Some(i) => Applied(0, Object(RemoveAt(ms, i) + [Member(child, value)])))
    case _ => Applied(9, parent)
  }

  /** The last part of apply_patch: add the value at the path. */
  function AddPath(root: Json, path: Text, value: Json, cs: bool): Applied {
    match SplitLast(path)
    case None => Applied(9, root)
    case Some((parent, child)) =>
      match Locate(root, parent, cs)
      case None => Applied(9, root)
      case Some(l) =>
        var a := AddChild(At(root, l), DecodeInPlace(child), value, cs);
        Applied(a.status, ReplaceAt(root, l, a.root))
  }

  /** add, or the second half of replace: duplicate the patch's value and add it. */
  function AddValue(root: Json, path: Text, value: Option<Json>, cs: bool): Applied {
    match value
    case None => Applied(7, root)
    case Some(v) =>
      match Duplicate(v)
      case None => Applied(8, root)
      case Some(copy) => AddPath(root, path, copy, cs)
  }

  /**
    apply_patch once the operation, the path and the operands have been read, on a
    document whose lists are intact; JsonPatchInPlace has the lists as they are.
   */
  function ApplyOp(root: Json, op: Opcode, path: Text, value: Option<Json>, from: Option<Json>, cs: bool): Applied {
    match op
    case INVALID => Applied(3, root)
    case TEST =>
      (match (Locate(root, path, cs), value)
       case (Some(l), Some(v)) =>
         // compare_json sorts the objects of the document that it compares
         Applied(if CompareJson(At(root, l), v, cs) then 0 else 1, ReplaceAt(root, l, Compared(At(root, l), v, cs)))
       case _ => Applied(1, root))
    case REMOVE =>
      if path == "" then Applied(0, Json.Invalid)
      else
        var (rest, old_item) := DetachPath(root, path, cs);
        if old_item.None? then Applied(13, root) else Applied(0, rest)
    case REPLACE =>
      if path == "" then ReplaceRoot(root, value)
      else
        var (rest, old_item) := DetachPath(root, path, cs);
        if old_item.None? then Applied(13, root) else AddValue(rest, path, value, cs)
    case ADD =>
      if path == "" then ReplaceRoot(root, value) else AddValue(root, path, value, cs)
    case MOVE =>
      (match from
       case Some(String(f)) =>
         var (rest, item) := DetachPath(root, f, cs);
         if item.None? then Applied(5, root) else AddPath(rest, path, item.value, cs)
       case Some(_) => Applied(5, root)
       case None => Applied(4, root))
    case COPY =>
      (match from
       case Some(String(f)) =>
         (match Locate(root, f, cs)
          case None => Applied(5, root)
          case Some(l) =>
            match Duplicate(At(root, l))
            case None => Applied(6, root)
            case Some(copy) => AddPath(root, path, copy, cs))
       case Some(_) => Applied(5, root)
       case None => Applied(4, root))
  }

  function ReplaceRoot(root: Json, value: Option<Json>): Applied {
    match value
    case None => Applied(7, root)
    case Some(v) =>
      match Duplicate(v)
      case None => Applied(8, root)
      case Some(copy) => Applied(0, copy)
  }

  /** apply_patch: read the patch object, then apply it. */
  function ApplyPatch(root: Json, patch: Json, cs: bool): Applied {
    match ItemOf(patch, "path", cs)
    case Some(String(path)) =>
      var op := match ItemOf(patch, "op", cs) { case Some(String(name)) => OpcodeOf(name) case _ => INVALID };
      ApplyOp(root, op, path, ItemOf(patch, "value", cs), ItemOf(patch, "from", cs), cs)
    case _ => Applied(2, root)
  }

  function ApplySeq(root: Json, patches: seq<Json>, cs: bool): Applied
    decreases |patches|
  {
    if patches == [] then Applied(0, root)
    else
      var a := ApplyPatch(root, patches[0], cs);
      if a.status != 0 then a else ApplySeq(a.root, patches[1..], cs)
  }

  // ---------------------------------------------------------------- creating patches

  /** One patch before it is written as an object; `value` is what the source duplicates. */
  datatype Edit = Edit(op: Text, path: Text, value: Option<Json>)

  /** compose_patch: a value too high to duplicate is silently left out. */
  function Compose(e: Edit): Json {
    var head := [Member("op", String(e.op)), Member("path", String(e.path))];
    match e.value
    case None => Object(head)
    case Some(v) =>
      match Duplicate(v)
      case None => Object(head)
      case Some(copy) => Object(head + [Member("value", copy)])
  }

  function Replace(path: Text, to: Json): seq<Edit> {
    [Edit("replace", path, Some(to))]
  }

  /** create_patches, before each edit is composed. */
  function Edits(path: Text, from: Json, to: Json, cs: bool): seq<Edit>
    decreases Height(from), 1
  {
    match (from, to)
    case (Number(x), Number(y)) => if SameNumber(x, y) then [] else Replace(path, to)
    case (String(x), String(y)) => if x == y then [] else Replace(path, to)
    case (Array(x), Array(y)) => ArrayEdits(path, x, y, 0, cs, Height(from))
    case (Object(x), Object(y)) =>
      SortKeepsHeight(x, cs);
      ObjectEdits(path, SortList(x, cs), SortList(y, cs), cs, Height(from))
    case (False, False) => []
    case (True, True) => []
    case (Null, Null) => []
    case (Invalid, Invalid) => []
    case _ => Replace(path, to)
  }

  /** The three array loops: common positions, then leftovers removed, then the rest appended. */
  function ArrayEdits(path: Text, from: seq<Json>, to: seq<Json>, index: nat, cs: bool, h: nat): seq<Edit>
    requires from == [] || ItemsHeight(from) < h
    decreases h, 0, |from| + |to|
  {
    if from != [] && to != [] then
      Edits(path + "/" + Decimal(index), from[0], to[0], cs) + ArrayEdits(path, from[1..], to[1..], index + 1, cs, h)
    else if from != [] then
      [Edit("remove", path + "/" + Decimal(index), None)] + ArrayEdits(path, from[1..], to, index, cs, h)
    else if to != [] then
      [Edit("add", path + "/-", Some(to[0]))] + ArrayEdits(path, from, to[1..], index + 1, cs, h)
    else []
  }

  /** The walk over both sorted member lists in step. */
  function ObjectEdits(path: Text, from: Members, to: Members, cs: bool, h: nat): seq<Edit>
    requires from == [] || MembersHeight(from) < h
    decreases h, 0, |from| + |to|
  {
    if from == [] && to == [] then []
    else
      var diff := if from == [] then 1 else if to == [] then -1 else CompareStrings(from[0].key, to[0].key, cs);
      if diff == 0 then
        Edits(path + "/" + Encode(from[0].key), from[0].value, to[0].value, cs)
        + ObjectEdits(path, from[1..], to[1..], cs, h)
      else if diff < 0 then
        [Edit("remove", path + "/" + Encode(from[0].key), None)] + ObjectEdits(path, from[1..], to, cs, h)
      else
        [Edit("add", path + "/" + Encode(to[0].key), Some(to[0].value))] + ObjectEdits(path, from, to[1..], cs, h)
  }

  function ComposeAll(es: seq<Edit>): (r: seq<Json>)
    ensures |r| == |es|
  {
    if es == [] then [] else [Compose(es[0])] + ComposeAll(es[1..])
  }

  /** cJSONUtils_GeneratePatches and its case-sensitive variant. */
  function GeneratePatches(from: Json, to: Json, cs: bool): Json {
    Array(ComposeAll(Edits("", from, to, cs)))
  }

  // ---------------------------------------------------------------- the generating loops

  lemma ComposeAppend(a: seq<Edit>, b: seq<Edit>)
    ensures ComposeAll(a + b) == ComposeAll(a) + ComposeAll(b)
  {
    if a == [] {
      assert a + b == b;
    } else {
      assert (a + b)[1..] == a[1..] + b;
      ComposeAppend(a[1..], b);
    }
  }

  /** The patches already in the list and those of the edits still to come. */
  ghost function Pending(r: seq<Json>, es: seq<Edit>): seq<Json> {
    r + ComposeAll(es)
  }

  lemma PendingStep(r: seq<Json>, a: seq<Edit>, b: seq<Edit>)
    ensures Pending(r, a + b) == Pending(r + ComposeAll(a), b)
  {
    ComposeAppend(a, b);
  }

  lemma PendingOne(r: seq<Json>, e: Edit, b: seq<Edit>)
    ensures Pending(r, [e] + b) == Pending(r + [Compose(e)], b)
  {
    assert ([e] + b)[1..] == b;
  }

  lemma ArrayStep(path: Text, from: seq<Json>, to: seq<Json>, k: nat, j: nat, index: nat, cs: bool, h: nat)
    requires k <= |from| && j <= |to| && (from == [] || ItemsHeight(from) < h)
    ensures from[k..] == [] || ItemsHeight(from[k..]) < h
    ensures k < |from| ==> from[k + 1..] == [] || ItemsHeight(from[k + 1..]) < h
    ensures k < |from| && j < |to| ==>
              ArrayEdits(path, from[k..], to[j..], index, cs, h) ==
              Edits(path + "/" + Decimal(index), from[k], to[j], cs) +
                  ArrayEdits(path, from[k + 1..], to[j + 1..], index + 1, cs, h)
    ensures k < |from| && j == |to| ==>
              ArrayEdits(path, from[k..], to[j..], index, cs, h) ==
              [Edit("remove", path + "/" + Decimal(index), None)] +
                  ArrayEdits(path, from[k + 1..], to[j..], index, cs, h)
    ensures k == |from| && j < |to| ==>
              ArrayEdits(path, from[k..], to[j..], index, cs, h) ==
              [Edit("add", path + "/-", Some(to[j]))] + ArrayEdits(path, from[k..], to[j + 1..], index + 1, cs, h)
    ensures k == |from| && j == |to| ==> ArrayEdits(path, from[k..], to[j..], index, cs, h) == []
  {
    TailHeight(from, k);
    if k < |from| { TailHeight(from, k + 1); assert from[k..][1..] == from[k + 1..]; }
    if j < |to| { assert to[j..][1..] == to[j + 1..]; }
  }

  /** Which list the object walk advances, as the source's `diff`. */
  function Diff(from: Members, to: Members, i: nat, j: nat, cs: bool): int
    requires i <= |from| && j <= |to| && (i < |from| || j < |to|)
  {
    if i == |from| then 1 else if j == |to| then -1 else CompareStrings(from[i].key, to[j].key, cs)
  }

  lemma ObjectStep(path: Text, from: Members, to: Members, i: nat, j: nat, cs: bool, h: nat)
    requires i <= |from| && j <= |to| && (i < |from| || j < |to|) && (from == [] || MembersHeight(from) < h)
    ensures from[i..] == [] || MembersHeight(from[i..]) < h
    ensures i < |from| ==> from[i + 1..] == [] || MembersHeight(from[i + 1..]) < h
    ensures Diff(from, to, i, j, cs) == 0 ==> i < |from| && j < |to|
    ensures Diff(from, to, i, j, cs) == 0 ==>
              ObjectEdits(path, from[i..], to[j..], cs, h) ==
              Edits(path + "/" + Encode(from[i].key), from[i].value, to[j].value, cs) +
                  ObjectEdits(path, from[i + 1..], to[j + 1..], cs, h)
    ensures Diff(from, to, i, j, cs) < 0 ==> i < |from|
    ensures Diff(from, to, i, j, cs) < 0 ==>
              ObjectEdits(path, from[i..], to[j..], cs, h) ==
              [Edit("remove", path + "/" + Encode(from[i].key), None)] +
                  ObjectEdits(path, from[i + 1..], to[j..], cs, h)
    ensures Diff(from, to, i, j, cs) > 0 ==> j < |to|
    ensures Diff(from, to, i, j, cs) > 0 ==>
              ObjectEdits(path, from[i..], to[j..], cs, h) ==
              [Edit("add", path + "/" + Encode(to[j].key), Some(to[j].value))] +
                  ObjectEdits(path, from[i..], to[j + 1..], cs, h)
  {
    MemberTailHeight(from, i);
    if i < |from| { MemberTailHeight(from, i + 1); assert from[i..][1..] == from[i + 1..]; }
    if j < |to| { assert to[j..][1..] == to[j + 1..]; }
  }

  lemma {:induction false} TailHeight(s: seq<Json>, i: nat)
    requires i <= |s|
    ensures ItemsHeight(s[i..]) <= ItemsHeight(s)
  {
    ItemsHeightBound(s[i..], ItemsHeight(s));
  }

  lemma {:induction false} MemberTailHeight(s: Members, i: nat)
    requires i <= |s|
    ensures MembersHeight(s[i..]) <= MembersHeight(s)
  {
    MembersHeightBound(s[i..], MembersHeight(s));
  }

  lemma PendingDone(r: seq<Json>, patches: seq<Json>, es: seq<Edit>)
    requires Pending(r, []) == Pending(patches, es)
    ensures r == patches + ComposeAll(es)
  {
    assert r + [] == r;
  }

  lemma ItemBelow(s: seq<Json>, i: nat)
    requires i < |s|
    ensures Height(s[i]) <= ItemsHeight(s)
  {
  }

  lemma MemberBelow(s: Members, i: nat)
    requires i < |s|
    ensures Height(s[i].value) <= MembersHeight(s)
  {
  }

  lemma NoObjectEdits(path: Text, from: Members, to: Members, cs: bool, h: nat)
    requires from == [] && to == []
    ensures ObjectEdits(path, from, to, cs, h) == []
  {
  }
}
