/**
  JSON Pointers (RFC 6901) as cJSON_Utils resolves and writes them.

  A node of a tree is named by its location, the child indices from the root down.
  `Locate` resolves pointer text to a location, `PathText` is the text that
  FindPointerFromObjectTo writes for a location, and the main result says exactly when
  resolving that text leads back to the node.
 */
module JsonPointer {
  import opened Basics
  import opened JsonTree
  import opened Decimals

  type Location = seq<nat>

  const SIZE_MOD := 0x1_0000_0000

  // ---------------------------------------------------------------- escaping

  /** encode_string_as_pointer: '~' becomes "~0" and '/' becomes "~1". */
  function Encode(s: Text): Text {
    if s == [] then []
    else (if s[0] == '/' then "~1" else if s[0] == '~' then "~0" else [s[0]]) + Encode(s[1..])
  }

  /** pointer_encoded_length, which sizes the buffer that the encoder writes. */
  method PointerEncodedLength(s: Text) returns (length: nat)
    ensures length == |Encode(s)|
  {
    length := 0;
    var i := 0;
    while i < |s|
      invariant 0 <= i <= |s|
      invariant length + |Encode(s[i..])| == |Encode(s)|
    {
      assert s[i..][1..] == s[i + 1..];
      if s[i] == '~' || s[i] == '/' {
        length := length + 1;
      }
      length := length + 1;
      i := i + 1;
    }
  }

  predicate AtTokenEnd(p: Text) {
    p == [] || p[0] == '/'
  }

  /** compare_pointers: does `name` equal the next token of `p`? */
  function ComparePointers(name: Text, p: Text, cs: bool): bool
    decreases |p|
  {
    if name != [] && !AtTokenEnd(p) then
      if p[0] == '~' then
        if |p| > 1 && ((p[1] == '0' && name[0] == '~') || (p[1] == '1' && name[0] == '/'))
        then ComparePointers(name[1..], p[2..], cs)
        else false
      else if Fold(name[0], cs) != Fold(p[0], cs) then false
      else ComparePointers(name[1..], p[1..], cs)
    else !AtTokenEnd(p) == (name != [])
  }

  /** The same comparison with the two cursors of the source. */
  method ComparePointersLoop(name: Text, p: Text, cs: bool) returns (same: bool)
    ensures same == ComparePointers(name, p, cs)
  {
    var n, i := 0, 0;
    while n < |name| && i < |p| && p[i] != '/'
      invariant 0 <= n <= |name| && 0 <= i <= |p|
      invariant ComparePointers(name[n..], p[i..], cs) == ComparePointers(name, p, cs)
      decreases |p| - i
    {
      assert name[n..][1..] == name[n + 1..] && p[i..][1..] == p[i + 1..];
      if p[i] == '~' {
        if !(i + 1 < |p| && ((p[i + 1] == '0' && name[n] == '~') || (p[i + 1] == '1' && name[n] == '/'))) {
          return false;
        }
        assert p[i..][2..] == p[i + 2..];
        i := i + 1;
      } else if Fold(name[n], cs) != Fold(p[i], cs) {
        return false;
      }
      n, i := n + 1, i + 1;
    }
    same := (i < |p| && p[i] != '/') == (n < |name|);
  }

  lemma {:induction false} EncodeHead(s: Text)
    ensures s != [] ==> Encode(s) != [] && Encode(s)[0] != '/'
    ensures s == [] ==> Encode(s) == []
  {
  }

  lemma {:induction false} EncodeHasNoSlash(s: Text)
    ensures '/' !in Encode(s)
  {
    if s != [] {
      EncodeHasNoSlash(s[1..]);
    }
  }

  /** A name matches the encoding of another exactly when the two names match. */
  lemma {:induction false} CompareEncoded(n: Text, m: Text, rest: Text, cs: bool)
    requires AtTokenEnd(rest)
    ensures ComparePointers(n, Encode(m) + rest, cs) <==> SameKey(n, m, cs)
  {
    var p := Encode(m) + rest;
    if m == [] {
      assert p == rest;
      if !cs { assert |Lower(n)| == |n|; }
    } else if n == [] {
      EncodeHead(m);
      assert p[0] == Encode(m)[0];
      if !cs { assert |Lower(m)| == |m|; }
    } else {
      CompareEncoded(n[1..], m[1..], rest, cs);
      SameKeyTail(n, m, cs);
      if m[0] == '/' || m[0] == '~' {
        assert p[2..] == Encode(m[1..]) + rest;
      } else {
        assert p[1..] == Encode(m[1..]) + rest;
      }
    }
  }

  // ---------------------------------------------------------------- array indices

  /** The decimal accumulation of decode_array_index_from_pointer, in a 32-bit size_t. */
  function DigitsValue(p: Text, acc: nat): nat {
    if p != [] && IsDigit(p[0]) then DigitsValue(p[1..], (10 * acc + (p[0] as int - 48)) % SIZE_MOD) else acc
  }

  function AfterDigits(p: Text): Text {
    if p != [] && IsDigit(p[0]) then AfterDigits(p[1..]) else p
  }

  /** decode_array_index_from_pointer; an empty token decodes to index 0. */
  function DecodeIndex(p: Text): Option<nat> {
    if p != [] && p[0] == '0' && !AtTokenEnd(p[1..]) then None
    else if !AtTokenEnd(AfterDigits(p)) then None
    else Some(DigitsValue(p, 0))
  }

  /** The digit loop with its cursor. */
  method DecodeIndexLoop(p: Text) returns (r: Option<nat>)
    ensures r == DecodeIndex(p)
  {
    if |p| > 1 && p[0] == '0' && p[1] != '/' {
      return None;
    }
    var parsed := 0;
    var position := 0;
    while position < |p| && IsDigit(p[position])
      invariant 0 <= position <= |p| && parsed >= 0
      invariant DigitsValue(p[position..], parsed) == DigitsValue(p, 0)
      invariant AfterDigits(p[position..]) == AfterDigits(p)
    {
      assert p[position..][1..] == p[position + 1..];
      parsed := (10 * parsed + (p[position] as int - 48)) % SIZE_MOD;
      position := position + 1;
    }
    assert AfterDigits(p) == p[position..];
    if position < |p| && p[position] != '/' {
      return None;
    }
    return Some(parsed);
  }

  lemma {:induction false} DigitsSplit(a: Text, rest: Text, acc: nat)
    requires forall i :: 0 <= i < |a| ==> IsDigit(a[i])
    ensures AfterDigits(a + rest) == AfterDigits(rest)
    ensures DigitsValue(a + rest, acc) == DigitsValue(rest, DigitsValue(a, acc))
  {
    if a == [] {
      assert a + rest == rest;
    } else {
      assert (a + rest)[1..] == a[1..] + rest;
      DigitsSplit(a[1..], rest, (10 * acc + (a[0] as int - 48)) % SIZE_MOD);
    }
  }

  lemma {:induction false} DecimalValue(n: nat)
    ensures DigitsValue(Decimal(n), 0) == n % SIZE_MOD
  {
    if n < 10 {
      assert Decimal(n)[1..] == [];
    } else {
      DecimalValue(n / 10);
      var last := [Digit(n % 10)];
      DigitsSplit(Decimal(n / 10), last, 0);
      assert last[1..] == [];
      var q := n / 10;
      assert DigitsValue(last, q % SIZE_MOD) == (10 * (q % SIZE_MOD) + n % 10) % SIZE_MOD;
      ModStep(q, n % 10);
    }
  }

  lemma ModStep(q: nat, d: nat)
    requires d < 10
    ensures (10 * (q % SIZE_MOD) + d) % SIZE_MOD == (10 * q + d) % SIZE_MOD
  {
    var k := q / SIZE_MOD;
    assert q == k * SIZE_MOD + q % SIZE_MOD;
    assert 10 * q + d == 10 * (q % SIZE_MOD) + d + (10 * k) * SIZE_MOD;
  }

  /** A written index decodes to itself modulo 2^32. */
  lemma DecodeDecimal(n: nat, rest: Text)
    requires AtTokenEnd(rest)
    ensures DecodeIndex(Decimal(n) + rest) == Some(n % SIZE_MOD)
  {
    var p := Decimal(n) + rest;
    DigitsSplit(Decimal(n), rest, 0);
    DecimalValue(n);
    if n == 0 { assert p[1..] == rest; }
  }

  // ---------------------------------------------------------------- resolving

  function SkipToken(p: Text): (r: Text)
    ensures AtTokenEnd(r) && |r| <= |p|
  {
    if AtTokenEnd(p) then p else SkipToken(p[1..])
  }

  lemma {:induction false} SkipTokenSplit(tok: Text, rest: Text)
    requires '/' !in tok && AtTokenEnd(rest)
    ensures SkipToken(tok + rest) == rest
  {
    if tok == [] {
      assert tok + rest == rest;
    } else {
      assert (tok + rest)[1..] == tok[1..] + rest;
      SkipTokenSplit(tok[1..], rest);
    }
  }

  function ChildCount(v: Json): nat {
    match v
    case Array(items) => |items|
    case Object(ms) => |ms|
    case _ => 0
  }

  function ChildAt(v: Json, i: nat): Json
    requires i < ChildCount(v)
  {
    match v
    case Array(items) => items[i]
    case Object(ms) => ms[i].value
  }

  function SetChild(v: Json, i: nat, c: Json): (r: Json)
    requires i < ChildCount(v)
    ensures ChildCount(r) == ChildCount(v) && ChildAt(r, i) == c
    ensures forall j :: 0 <= j < ChildCount(v) && j != i ==> ChildAt(r, j) == ChildAt(v, j)
  {
    match v
    case Array(items) => Array(items[i := c])
    case Object(ms) => Object(ms[i := Member(ms[i].key, c)])
  }

  function MatchMember(ms: Members, p: Text, cs: bool): (r: Option<nat>)
    ensures r.Some? ==> r.value < |ms| && ComparePointers(ms[r.value].key, p, cs)
    ensures r.Some? ==> forall j :: 0 <= j < r.value ==> !ComparePointers(ms[j].key, p, cs)
    ensures r.None? ==> forall j :: 0 <= j < |ms| ==> !ComparePointers(ms[j].key, p, cs)
  {
    if ms == [] then None
    else if ComparePointers(ms[0].key, p, cs) then Some(0)
    else
      match MatchMember(ms[1..], p, cs)
      case None => None
      case Some(i) => Some(i + 1)
  }

  /** The child that the next token of `p` selects. */
  function Child(v: Json, p: Text, cs: bool): (r: Option<nat>)
    ensures r.Some? ==> r.value < ChildCount(v)
  {
    match v
    case Array(items) =>
      (match DecodeIndex(p)
       case None => None
       case Some(i) => if i < |items| then Some(i) else None)
    case Object(ms) => MatchMember(ms, p, cs)
    case _ => None
  }

  /** get_item_from_pointer; text that does not start with '/' stops at the current node. */
  function Locate(v: Json, p: Text, cs: bool): (r: Option<Location>)
    ensures r.Some? ==> IsLocation(v, r.value)
    decreases |p|
  {
    if p == [] || p[0] != '/' then Some([])
    else
      match Child(v, p[1..], cs)
      case None => None
      case Some(i) =>
        match Locate(ChildAt(v, i), SkipToken(p[1..]), cs)
        case None => None
        case Some(l) => Some([i] + l)
  }

  predicate IsLocation(v: Json, l: Location) {
    l == [] || (l[0] < ChildCount(v) && IsLocation(ChildAt(v, l[0]), l[1..]))
  }

  function At(v: Json, l: Location): Json
    requires IsLocation(v, l)
  {
    if l == [] then v else At(ChildAt(v, l[0]), l[1..])
  }

  lemma {:induction false} AtAppend(v: Json, l: Location, m: Location)
    requires IsLocation(v, l)
    ensures IsLocation(v, l + m) <==> IsLocation(At(v, l), m)
    ensures IsLocation(At(v, l), m) ==> At(v, l + m) == At(At(v, l), m)
  {
    if l == [] {
      assert l + m == m;
    } else {
      assert (l + m)[1..] == l[1..] + m;
      AtAppend(ChildAt(v, l[0]), l[1..], m);
    }
  }

  function Under(here: Location, r: Option<Location>): Option<Location> {
    match r
    case None => None
    case Some(l) => Some(here + l)
  }

  lemma LocateStep(v: Json, p: Text, cs: bool, here: Location)
    requires p != [] && p[0] == '/'
    ensures Under(here, Locate(v, p, cs)) ==
            match Child(v, p[1..], cs)
            case None => None
            case Some(i) => Under(here + [i], Locate(ChildAt(v, i), SkipToken(p[1..]), cs))
  {
    match Child(v, p[1..], cs)
    case None =>
    case Some(i) =>
      match Locate(ChildAt(v, i), SkipToken(p[1..]), cs)
      case None =>
      case Some(l) => assert here + ([i] + l) == here + [i] + l;
  }

  /** The pointer walk of the source, one token per turn. */
  method GetItemFromPointer(root: Json, pointer: Text, cs: bool) returns (r: Option<Location>)
    ensures r == Locate(root, pointer, cs)
  {
    var p := pointer;
    var here: Location := [];
    var current := root;
    assert Under([], Locate(root, pointer, cs)) == Locate(root, pointer, cs) by {
      if Locate(root, pointer, cs).Some? {
        assert [] + Locate(root, pointer, cs).value == Locate(root, pointer, cs).value;
      }
    }
    while p != [] && p[0] == '/'
      invariant Under(here, Locate(current, p, cs)) == Locate(root, pointer, cs)
      decreases |p|
    {
      LocateStep(current, p, cs, here);
      p := p[1..];
      var child := Child(current, p, cs);
      if child.None? {
        return None;
      }
      var i := child.value;
      here := here + [i];
      current := ChildAt(current, i);
      ghost var skipped, length := SkipToken(p), |p|;
      while !AtTokenEnd(p)
        invariant SkipToken(p) == skipped && |p| <= length
        decreases |p|
      {
        p := p[1..];
      }
    }
    assert here + [] == here;
    return Some(here);
  }

  // ---------------------------------------------------------------- writing pointers

  function Token(v: Json, i: nat): (t: Text)
    requires i < ChildCount(v)
    ensures '/' !in t
  {
    match v
    case Array(items) => Decimal(i)
    case Object(ms) => EncodeHasNoSlash(ms[i].key); Encode(ms[i].key)
  }

  /** The pointer that spells out a location. */
  function PathText(v: Json, l: Location): Text
    requires IsLocation(v, l)
  {
    if l == [] then "" else "/" + Token(v, l[0]) + PathText(ChildAt(v, l[0]), l[1..])
  }

  /** FindPointerFromObjectTo: search the tree below `here` for the node at `target`. */
  function FindPointer(v: Json, here: Location, target: Location): Option<Text>
    decreases v, ChildCount(v) + 1
  {
    if here == target then Some("") else FindBelow(v, here, target, 0)
  }

  function FindBelow(v: Json, here: Location, target: Location, i: nat): Option<Text>
    requires i <= ChildCount(v)
    decreases v, ChildCount(v) - i
  {
    if i == ChildCount(v) then None
    else
      match FindPointer(ChildAt(v, i), here + [i], target)
      case Some(t) => Some("/" + Token(v, i) + t)
      case None => FindBelow(v, here, target, i + 1)
  }

  predicate Below(v: Json, here: Location, target: Location) {
    here <= target && IsLocation(v, target[|here|..])
  }

  /** The search finds a node exactly when it is there, and writes its location out. */
  lemma {:induction false} FindPointerFinds(v: Json, here: Location, target: Location)
    ensures FindPointer(v, here, target) ==
            if Below(v, here, target) then Some(PathText(v, target[|here|..])) else None
    decreases v, ChildCount(v) + 1
  {
    if here != target {
      FindBelowFinds(v, here, target, 0);
    }
  }

  lemma {:induction false} FindBelowFinds(v: Json, here: Location, target: Location, i: nat)
    requires here != target && i <= ChildCount(v)
    requires Below(v, here, target) ==> i <= target[|here|]
    ensures FindBelow(v, here, target, i) ==
            if Below(v, here, target) then Some(PathText(v, target[|here|..])) else None
    decreases v, ChildCount(v) - i
  {
    if i < ChildCount(v) {
      var c := ChildAt(v, i);
      FindPointerFinds(c, here + [i], target);
      if Below(c, here + [i], target) {
        assert target[|here|..] == [i] + target[|here| + 1..];
        assert Below(v, here, target);
      } else {
        if Below(v, here, target) && target[|here|] == i {
          assert false;
        }
        FindBelowFinds(v, here, target, i + 1);
      }
    }
  }

  /** Along the location, every member is the first with its key and every index fits in size_t. */
  predicate FirstAlong(v: Json, l: Location, cs: bool)
    requires IsLocation(v, l)
  {
    l == [] ||
    (&& (match v
         case Array(_) => l[0] < SIZE_MOD
         case Object(ms) => forall j :: 0 <= j < l[0] ==> !SameKey(ms[j].key, ms[l[0]].key, cs)
         case _ => true)
     && FirstAlong(ChildAt(v, l[0]), l[1..], cs))
  }

  /** Which child a written token leads back to. */
  lemma ChildOfToken(v: Json, i: nat, rest: Text, cs: bool)
    requires i < ChildCount(v) && AtTokenEnd(rest)
    ensures Child(v, Token(v, i) + rest, cs) == Some(i) <==>
            (match v
             case Array(_) => i < SIZE_MOD
             case Object(ms) => forall j :: 0 <= j < i ==> !SameKey(ms[j].key, ms[i].key, cs)
             case _ => true)
  {
    hide ComparePointers, Encode, DecodeIndex, Decimal, SameKey, MatchMember;
    match v
    case Array(items) => DecodeDecimal(i, rest);
    case Object(ms) => MatchOfToken(ms, i, rest, cs);
  }

  lemma MatchOfToken(ms: Members, i: nat, rest: Text, cs: bool)
    requires i < |ms| && AtTokenEnd(rest)
    ensures MatchMember(ms, Encode(ms[i].key) + rest, cs) == Some(i) <==>
            forall j :: 0 <= j < i ==> !SameKey(ms[j].key, ms[i].key, cs)
  {
    hide ComparePointers, Encode;
    forall j | 0 <= j < |ms|
      ensures ComparePointers(ms[j].key, Encode(ms[i].key) + rest, cs) <==> SameKey(ms[j].key, ms[i].key, cs)
    {
      CompareEncoded(ms[j].key, ms[i].key, rest, cs);
    }
    SameKeyAsItself(ms[i].key, cs);
  }

  lemma SameKeyAsItself(key: Text, cs: bool)
    ensures SameKey(key, key, cs)
  {
  }

  lemma LocateToken(v: Json, i: nat, rest: Text, cs: bool)
    requires i < ChildCount(v) && AtTokenEnd(rest)
    ensures Locate(v, "/" + Token(v, i) + rest, cs) ==
            match Child(v, Token(v, i) + rest, cs)
            case None => None
            case Some(j) => Under([j], Locate(ChildAt(v, j), rest, cs))
  {
    var tok := Token(v, i);
    assert ("/" + tok + rest)[1..] == tok + rest;
    SkipTokenSplit(tok, rest);
  }

  lemma {:induction false} LocatePathText(v: Json, l: Location, cs: bool)
    requires IsLocation(v, l)
    ensures Locate(v, PathText(v, l), cs) == Some(l) <==> FirstAlong(v, l, cs)
  {
    if l != [] {
      var i, c := l[0], ChildAt(v, l[0]);
      var rest := PathText(c, l[1..]);
      LocateToken(v, i, rest, cs);
      ChildOfToken(v, i, rest, cs);
      LocatePathText(c, l[1..], cs);
      assert l == [i] + l[1..];
      var j := Child(v, Token(v, i) + rest, cs);
      if j.Some? && Locate(ChildAt(v, j.value), rest, cs).Some? {
        var below := Locate(ChildAt(v, j.value), rest, cs).value;
        assert ([j.value] + below)[0] == j.value && ([j.value] + below)[1..] == below;
      }
    }
  }

  /**
    The pointer round trip: the text found for a node leads back to exactly that node,
    if and only if no earlier sibling on the way has a matching key and no index on the
    way needs more than 32 bits.
   */
  lemma PointerRoundTrip(root: Json, target: Location, cs: bool)
    requires IsLocation(root, target)
    ensures FindPointer(root, [], target) == Some(PathText(root, target))
    ensures Locate(root, PathText(root, target), cs) == Some(target) <==> FirstAlong(root, target, cs)
  {
    FindPointerFinds(root, [], target);
    assert target[0..] == target;
    LocatePathText(root, target, cs);
  }

  /** Every array fits in size_t. */
  predicate Sized(v: Json) {
    match v
    case Array(items) => |items| < SIZE_MOD && forall i :: 0 <= i < |items| ==> Sized(items[i])
    case Object(ms) => forall i :: 0 <= i < |ms| ==> Sized(ms[i].value)
    case _ => true
  }

  lemma {:induction false} UniqueKeysAreFirst(v: Json, l: Location, cs: bool)
    requires IsLocation(v, l) && Sized(v) && KeysUnique(v, cs)
    ensures FirstAlong(v, l, cs)
  {
    if l != [] {
      UniqueKeysAreFirst(ChildAt(v, l[0]), l[1..], cs);
    }
  }

  /** With distinct keys the round trip holds for every node of the tree. */
  lemma PointerRoundTripUnique(root: Json, target: Location, cs: bool)
    requires IsLocation(root, target) && Sized(root) && KeysUnique(root, cs)
    ensures FindPointer(root, [], target).Some?
    ensures Locate(root, FindPointer(root, [], target).value, cs) == Some(target)
  {
    PointerRoundTrip(root, target, cs);
    UniqueKeysAreFirst(root, target, cs);
  }
}
