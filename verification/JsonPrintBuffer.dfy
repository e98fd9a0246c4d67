/**
  The printer of cJSON on its buffer, which grows unless the caller preallocated it.

  Printing into a buffer of `n` bytes that must not grow succeeds exactly when the text of
  JsonText.Print exists and is at most `n - 2` bytes long: one byte for the NUL and one that
  `ensure` always asks for on top. All stores stay inside the buffer.
 */
module JsonPrintBuffer {
  import opened Basics
  import opened JsonTree
  import opened JsonText
  import opened JsonTextRoundTrip

  lemma {:induction false} EscapedNulFree(s: Text)
    requires NulFree(s)
    ensures NulFree(EscapeText(s))
  {
    if s != [] {
      EscapedNulFree(s[1..]);
    }
  }

  /** Printed text is a C string. */
  lemma {:induction false} PrintedNulFree(v: Json, format: bool, depth: nat)
    requires TreeNulFree(v) && Print(v, format, depth).Some?
    ensures NulFree(Print(v, format, depth).value)
    decreases v, 1
  {
    match v
    case String(s) => EscapedNulFree(s);
    case Array(items) => ItemsNulFree(items, format, depth + 1);
    case Object(ms) => MembersNulFree(ms, format, depth + 1);
    case _ =>
  }

  lemma {:induction false} ItemsNulFree(items: seq<Json>, format: bool, depth: nat)
    requires (forall i :: 0 <= i < |items| ==> TreeNulFree(items[i])) && PrintItems(items, format, depth).Some?
    ensures NulFree(PrintItems(items, format, depth).value)
    decreases items, 0
  {
    if items != [] {
      PrintedNulFree(items[0], format, depth);
      if |items| > 1 {
        ItemsNulFree(items[1..], format, depth);
      }
    }
  }

  lemma {:induction false} MembersNulFree(ms: Members, format: bool, depth: nat)
    requires TreeNulFree(Object(ms)) && PrintMembers(ms, format, depth).Some?
    ensures NulFree(PrintMembers(ms, format, depth).value)
    decreases ms, 0
  {
    if ms != [] {
      PrintedNulFree(ms[0].value, format, depth);
      EscapedNulFree(ms[0].key);
      MembersNulFree(ms[1..], format, depth);
    }
  }

  /** There is a text, and from `start` it ends two bytes before `limit`. */
  predicate Fits(t: Option<Text>, start: nat, limit: nat) {
    t.Some? && start + |t.value| + 2 <= limit
  }

  class PrintBuffer {
    var buffer: array<char>
    var offset: nat
    var depth: nat
    const noalloc: bool
    const format: bool

    constructor (space: array<char>, noalloc: bool, format: bool)
      requires space.Length <= INT_MAX
      ensures Valid() && buffer == space && offset == 0 && depth == 0
      ensures this.noalloc == noalloc && this.format == format
    {
      buffer, offset, depth := space, 0, 0;
      this.noalloc, this.format := noalloc, format;
    }

    ghost predicate Valid()
      reads this
    {
      buffer.Length <= INT_MAX && (offset < buffer.Length || offset == buffer.Length == 0)
    }

    /** How long the buffer can become. */
    ghost function Limit(): nat
      reads this
    {
      if noalloc then buffer.Length else INT_MAX
    }

    ghost function Written(): Text
      requires Valid()
      reads this, buffer
    {
      buffer[..offset]
    }

    /** The buffer is the old one or a new, longer one, and may still become as long as before. */
    twostate predicate Grown()
      reads this
    {
      && (buffer == old(buffer) || (!noalloc && fresh(buffer)))
      && Valid() && Limit() == old(Limit())
    }

    /** `t` follows the old text and ends in a NUL. */
    ghost predicate Ends(before: Text, t: Text)
      reads this, buffer
    {
      && |before| + |t| < buffer.Length
      && buffer[..|before| + |t|] == before + t
      && buffer[|before| + |t|] == '\0'
    }

    lemma EndsJoined(before: Text, a: Text, t: Text)
      requires Ends(before + a, t)
      ensures Ends(before, a + t)
    {
      assert before + a + t == before + (a + t);
    }

    /** ensure. */
    method Ensure(needed: nat) returns (ok: bool)
      requires Valid()
      modifies this`buffer
      ensures Grown() && ok == (offset + needed + 1 <= Limit())
      ensures Written() == old(Written())
      ensures ok ==> offset + needed + 1 <= buffer.Length
    {
      if buffer.Length > 0 && offset >= buffer.Length {
        return false;
      }
      if needed > INT_MAX {
        return false;
      }
      var total := needed + offset + 1;
      if total <= buffer.Length {
        return true;
      }
      if noalloc {
        return false;
      }
      var size;
      if total > INT_MAX / 2 {
        if total > INT_MAX {
          return false;
        }
        size := INT_MAX;
      } else {
        size := total * 2;
      }
      var space := new char[size];
      forall i | 0 <= i < buffer.Length {
        space[i] := buffer[i];
      }
      buffer := space;
      ok := true;
    }

    /** Stores a text at a position. */
    method Store(at: nat, s: Text)
      requires at + |s| <= buffer.Length
      modifies buffer
      ensures buffer[..at + |s|] == old(buffer[..at]) + s
    {
      var i := 0;
      while i < |s|
        invariant 0 <= i <= |s|
        invariant buffer[..at] == old(buffer[..at]) && buffer[at..at + i] == s[..i]
      {
        buffer[at + i] := s[i];
        i := i + 1;
      }
      assert buffer[..at + |s|] == buffer[..at] + buffer[at..at + |s|];
    }

    /** A piece of fixed text: reserve, store, perhaps terminate, perhaps advance. */
    method Put(s: Text, needed: nat, terminate: bool, advance: bool) returns (ok: bool)
      requires Valid() && |s| + (if terminate then 1 else 0) <= needed
      modifies this`buffer, this`offset, buffer
      ensures Grown() && ok == (old(offset) + needed + 1 <= Limit())
      ensures ok ==> offset == old(offset) + (if advance then |s| else 0)
      ensures ok ==> old(offset) + |s| < buffer.Length && buffer[..old(offset) + |s|] == old(Written()) + s
      ensures ok && terminate ==> Ends(old(Written()), s)
    {
      ok := Ensure(needed);
      if !ok {
        return;
      }
      Store(offset, s);
      if terminate {
        buffer[offset + |s|] := '\0';
      }
      if advance {
        offset := offset + |s|;
      }
    }

    /** update_offset, whose strlen stops at the end of `t`. */
    method UpdateOffset(ghost before: Text, ghost t: Text)
      requires Valid() && Ends(before, t) && NulFree(t) && |before| <= offset <= |before| + |t|
      modifies this`offset
      ensures Valid() && offset == |before| + |t| && Written() == before + t
    {
      ghost var text := buffer[..|before| + |t|];
      assert forall k :: |before| <= k < |text| ==> buffer[k] == text[k] == t[k - |before|];
      while buffer[offset] != '\0'
        invariant |before| <= offset <= |before| + |t|
        decreases |before| + |t| - offset
      {
        offset := offset + 1;
      }
    }

    /** The first pass of print_string_ptr: how much longer the escaped text is. */
    static method CountEscapes(s: Text) returns (extra: nat)
      ensures |s| + extra == |EscapeText(s)|
      ensures extra == 0 ==> EscapeText(s) == s
    {
      extra := 0;
      var i := 0;
      while i < |s|
        invariant 0 <= i <= |s|
        invariant extra == |EscapeText(s[..i])| - i
        invariant extra == 0 ==> EscapeText(s[..i]) == s[..i]
      {
        EscapeOneMore(s, i);
        if s[i] == '\"' || s[i] == '\\' || s[i] as int in {8, 9, 10, 12, 13} {
          extra := extra + 1;
        } else if s[i] as int < 32 {
          extra := extra + 5;
        }
        i := i + 1;
      }
      assert s[..|s|] == s;
    }

    /** The second pass of print_string_ptr. */
    method StoreEscaped(at: nat, s: Text)
      requires at + |EscapeText(s)| <= buffer.Length
      modifies buffer
      ensures buffer[..at + |EscapeText(s)|] == old(buffer[..at]) + EscapeText(s)
    {
      hide EscapeText, EscapeChar;
      var position, i := at, 0;
      EscapeEmpty(s);
      while i < |s|
        invariant 0 <= i <= |s|
        invariant position == at + |EscapeText(s[..i])| <= at + |EscapeText(s)|
        invariant buffer[..position] == old(buffer[..at]) + EscapeText(s[..i])
      {
        EscapeOneMore(s, i);
        EscapePrefix(s, i + 1);
        Store(position, EscapeChar(s[i]));
        position := position + |EscapeChar(s[i])|;
        i := i + 1;
      }
      assert s[..|s|] == s;
    }

    /** print_string_ptr. */
    method PrintStringPtr(s: Text) returns (ok: bool)
      requires Valid()
      modifies this`buffer, buffer
      ensures Grown() && ok == Fits(Some(PrintString(s)), offset, Limit())
      ensures ok ==> Ends(old(Written()), PrintString(s))
    {
      hide EscapeText, PrintString;
      var extra := CountEscapes(s);
      QuotedText(s);
      ok := Ensure(|s| + extra + 3);
      if !ok {
        return;
      }
      StoreQuoted(s, extra);
    }

    /** The stores of print_string_ptr. */
    method StoreQuoted(s: Text, extra: nat)
      requires |s| + extra == |EscapeText(s)| && offset + |s| + extra + 3 <= buffer.Length
      requires extra == 0 ==> EscapeText(s) == s
      modifies buffer
      ensures Ends(old(buffer[..offset]), PrintString(s))
    {
      hide EscapeText, PrintString;
      QuotedText(s);
      ghost var before := buffer[..offset];
      Store(offset, "\"");
      var position := offset + 1;
      if extra == 0 {
        Store(position, s);
      } else {
        StoreEscaped(position, s);
      }
      position := position + |s| + extra;
      Store(position, "\"");
      buffer[position + 1] := '\0';
      assert before + "\"" + EscapeText(s) + "\"" == before + PrintString(s);
    }

    /** print_value: the text is stored from the old offset; the offset may lag behind its end. */
    method PrintValue(v: Json) returns (ok: bool)
      requires Valid() && TreeNulFree(v)
      modifies this, buffer
      ensures Grown() && ok == Fits(Print(v, format, old(depth)), old(offset), Limit())
      ensures ok ==> Ends(old(Written()), Print(v, format, old(depth)).value)
      ensures ok ==> old(offset) <= offset <= old(offset) + |Print(v, format, old(depth)).value| && depth == old(depth)
      decreases v, 1
    {
      hide PrintItems, PrintMembers, PrintString, IntText;
      match v
      case Null => ok := Put("null", 5, true, false);
      case False => ok := Put("false", 6, true, false);
      case True => ok := Put("true", 5, true, false);
      case Number(d) =>
        if IsInt(d) {
          ok := Put(IntText(ValueInt(d)), |IntText(ValueInt(d))| + 1, true, true);
        } else {
          ok := false;
        }
      case String(s) => ok := PrintStringPtr(s);
      case Array(items) => ok := PrintArray(items);
      case Object(ms) => ok := PrintObject(ms);
      case Invalid => ok := false;
    }

    /** The closing bracket, behind which the offset stays. */
    method Close(closing: Text, needed: nat, ghost before: Text, ghost done: Text) returns (ok: bool)
      requires Valid() && depth > 0 && Written() == before + done && needed == |closing| + 1
      modifies this, buffer
      ensures Grown() && ok == (|before| + |done| + |closing| + 2 <= Limit())
      ensures ok ==> Ends(before, done + closing) && offset == old(offset)
      ensures depth == old(depth) - 1
    {
      assert offset == |before + done|;
      ok := Put(closing, needed, true, false);
      depth := depth - 1;
      if ok {
        EndsJoined(before, done, closing);
      }
    }

    /** print_array. */
    method PrintArray(items: seq<Json>) returns (ok: bool)
      requires Valid() && TreeNulFree(Array(items))
      modifies this, buffer
      ensures Grown() && ok == Fits(Print(Array(items), format, old(depth)), old(offset), Limit())
      ensures ok ==> Ends(old(Written()), Print(Array(items), format, old(depth)).value)
      ensures ok ==>
                old(offset) <= offset <= old(offset) + |Print(Array(items), format, old(depth)).value| &&
                    depth == old(depth)
      decreases items, 1
    {
      hide Print, PrintItems, TreeNulFree;
      ghost var before, text := Written(), PrintItems(items, format, depth + 1);
      ContainerText(items, [], format, depth);
      if depth >= NESTING_LIMIT {
        return false;
      }
      ok := Put("[", 1, false, true);
      if !ok {
        return;
      }
      depth := depth + 1;
      ok := PrintElements(items);
      if !ok {
        return;
      }
      assert before + "[" + text.value == before + ("[" + text.value);
      assert Grown() && offset == |before| + |"[" + text.value|;
      ok := Close("]", 2, before, "[" + text.value);
    }

    /** The loop of print_array. */
    method PrintElements(items: seq<Json>) returns (ok: bool)
      requires Valid() && TreeNulFree(Array(items))
      modifies this, buffer
      ensures Grown() && ok == (items == [] || Fits(PrintItems(items, format, old(depth)), old(offset), Limit()))
      ensures ok ==> PrintItems(items, format, old(depth)).Some? && depth == old(depth)
      ensures ok ==> Written() == old(Written()) + PrintItems(items, format, old(depth)).value
      decreases items, 0
    {
      hide PrintItems, OneItem;
      ghost var goal, done := PrintItems(items, format, depth), "";
      AllItems(done, items, format, depth);
      ok := true;
      var i := 0;
      while i < |items|
        invariant 0 <= i <= |items| && ok && Grown() && depth == old(depth)
        invariant Written() == old(Written()) + done
        invariant i > 0 ==> offset + 2 <= Limit()
        invariant goal == Prepend(done, PrintItems(items[i..], format, depth))
      {
        OneMoreItem(done, items, i, format, depth);
        ok := PrintItem(items[i], i + 1 < |items|);
        if !ok {
          return;
        }
        done := done + OneItem(items[i], i + 1 < |items|, format, depth).value;
        i := i + 1;
      }
      AllItems(done, items, format, depth);
    }

    /** One turn of the loop of print_array. */
    method PrintItem(v: Json, more: bool) returns (ok: bool)
      requires Valid() && TreeNulFree(v)
      modifies this, buffer
      ensures Grown() && ok == Fits(OneItem(v, more, format, old(depth)), old(offset), Limit())
      ensures ok ==> Written() == old(Written()) + OneItem(v, more, format, old(depth)).value && depth == old(depth)
      decreases v, 2
    {
      hide Print;
      ghost var before, text := Written(), Print(v, format, depth);
      ok := PrintValue(v);
      if !ok {
        return;
      }
      PrintedNulFree(v, format, depth);
      UpdateOffset(before, text.value);
      if more {
        var separator := if format then ", " else ",";
        ok := Put(separator, |separator| + 1, true, true);
        assert before + (text.value + separator) == before + text.value + separator;
      }
    }

    /** print_object. */
    method PrintObject(ms: Members) returns (ok: bool)
      requires Valid() && TreeNulFree(Object(ms))
      modifies this, buffer
      ensures Grown() && ok == Fits(Print(Object(ms), format, old(depth)), old(offset), Limit())
      ensures ok ==> Ends(old(Written()), Print(Object(ms), format, old(depth)).value)
      ensures ok ==>
                old(offset) <= offset <= old(offset) + |Print(Object(ms), format, old(depth)).value| &&
                    depth == old(depth)
      decreases ms, 1
    {
      hide Print, PrintMembers, Closing, TreeNulFree;
      ghost var before, text := Written(), PrintMembers(ms, format, depth + 1);
      ContainerText([], ms, format, depth);
      if depth >= NESTING_LIMIT {
        return false;
      }
      var opening := if format then "{\n" else "{";
      ok := Put(opening, |opening| + 1, false, true);
      if !ok {
        return;
      }
      depth := depth + 1;
      ok := PrintLines(ms);
      if !ok {
        return;
      }
      assert before + opening + text.value == before + (opening + text.value);
      assert Grown() && offset == |before| + |opening + text.value|;
      ClosingLength(format, depth - 1);
      ok := Close(Closing(format, depth - 1), if format then depth + 1 else 2, before, opening + text.value);
    }

    /** The loop of print_object. */
    method PrintLines(ms: Members) returns (ok: bool)
      requires Valid() && TreeNulFree(Object(ms))
      modifies this, buffer
      ensures Grown() && ok == (ms == [] || Fits(PrintMembers(ms, format, old(depth)), old(offset), Limit()))
      ensures ok ==> PrintMembers(ms, format, old(depth)).Some? && depth == old(depth)
      ensures ok ==> Written() == old(Written()) + PrintMembers(ms, format, old(depth)).value
      decreases ms, 0
    {
      hide PrintMembers, OneMember;
      ghost var goal, done := PrintMembers(ms, format, depth), "";
      AllMembers(done, ms, format, depth);
      ok := true;
      var i := 0;
      while i < |ms|
        invariant 0 <= i <= |ms| && ok && Grown() && depth == old(depth)
        invariant Written() == old(Written()) + done
        invariant i > 0 ==> offset + 2 <= Limit()
        invariant goal == Prepend(done, PrintMembers(ms[i..], format, depth))
      {
        OneMoreMember(done, ms, i, format, depth);
        ok := PrintMember(ms[i], i + 1 < |ms|);
        if !ok {
          return;
        }
        done := done + OneMember(ms[i], i + 1 < |ms|, format, depth).value;
        i := i + 1;
      }
      AllMembers(done, ms, format, depth);
    }

    /** One turn of the loop of print_object. */
    method PrintMember(m: Member<Json>, more: bool) returns (ok: bool)
      requires Valid() && NulFree(m.key) && TreeNulFree(m.value)
      modifies this, buffer
      ensures Grown() && ok == Fits(OneMember(m, more, format, old(depth)), old(offset), Limit())
      ensures ok ==> Written() == old(Written()) + OneMember(m, more, format, old(depth)).value && depth == old(depth)
      decreases m, 0
    {
      hide Print, KeyPart, OneMember;
      ghost var before, value := Written(), Print(m.value, format, depth);
      ghost var keyPart := KeyPart(m.key, format, depth);
      ok := PrintKey(m.key);
      MemberTextParts(m, value, more, format, depth);
      if !ok {
        return;
      }
      ok := PrintValue(m.value);
      if !ok {
        return;
      }
      PrintedNulFree(m.value, format, depth);
      UpdateOffset(before + keyPart, value.value);
      var ending := (if more then "," else "") + (if format then "\n" else "");
      ok := Put(ending, |ending| + 1, true, true);
      assert before + keyPart + value.value + ending == before + (keyPart + value.value + ending);
    }

    /** The part of the loop of print_object before the value. */
    method PrintKey(key: Text) returns (ok: bool)
      requires Valid() && NulFree(key)
      modifies this`buffer, this`offset, buffer
      ensures Grown() && ok == (old(offset) + |KeyPart(key, format, depth)| + 1 <= Limit())
      ensures ok ==> Written() == old(Written()) + KeyPart(key, format, depth)
    {
      hide PrintString;
      ghost var before, done := Written(), "";
      if format {
        ok := Put(Tabs(depth), depth, false, true);
        if !ok {
          return;
        }
        done := Tabs(depth);
      }
      assert Written() == before + done;
      ok := PrintStringPtr(key);
      if !ok {
        return;
      }
      PrintedKeyNulFree(key);
      UpdateOffset(before + done, PrintString(key));
      var separator := if format then ":\t" else ":";
      ok := Put(separator, |separator|, false, true);
      assert before + done + PrintString(key) + separator == before + (done + PrintString(key) + separator);
    }
  }

  lemma PrintedKeyNulFree(key: Text)
    requires NulFree(key)
    ensures NulFree(PrintString(key))
  {
    EscapedNulFree(key);
  }

  // ---------------------------------------------------------------- the text of a partly printed container

  lemma ClosingLength(format: bool, depth: nat)
    ensures |Closing(format, depth)| == if format then depth + 1 else 1
  {
  }

  lemma ContainerText(items: seq<Json>, ms: Members, format: bool, depth: nat)
    ensures var t := PrintItems(items, format, depth + 1);
            Print(Array(items), format, depth) ==
            if depth >= NESTING_LIMIT || t.None? then None else Some("[" + t.value + "]")
    ensures var t := PrintMembers(ms, format, depth + 1);
            Print(Object(ms), format, depth) ==
            if depth >= NESTING_LIMIT || t.None? then None
            else Some((if format then "{\n" else "{") + t.value + Closing(format, depth))
    ensures items == [] ==> PrintItems(items, format, depth + 1) == Some("")
    ensures ms == [] ==> PrintMembers(ms, format, depth + 1) == Some("")
  {
    if depth < NESTING_LIMIT && PrintMembers(ms, format, depth + 1).Some? {
      var start := (if format then "{\n" else "{") + PrintMembers(ms, format, depth + 1).value;
      var pad := if format then Tabs(depth) else "";
      assert start + pad + "}" == start + (pad + "}");
    }
  }

  /** The text of one element. */
  function OneItem(v: Json, more: bool, format: bool, depth: nat): Option<Text> {
    match Print(v, format, depth)
    case None => None
    case Some(t) => Some(if !more then t else t + (if format then ", " else ","))
  }

  lemma OneMoreItem(done: Text, items: seq<Json>, i: nat, format: bool, depth: nat)
    requires i < |items|
    ensures var text := OneItem(items[i], i + 1 < |items|, format, depth);
            Prepend(done, PrintItems(items[i..], format, depth)) ==
            if text.None? then None else Prepend(done + text.value, PrintItems(items[i + 1..], format, depth))
  {
    assert items[i..][0] == items[i] && items[i..][1..] == items[i + 1..];
    var text := OneItem(items[i], i + 1 < |items|, format, depth);
    if text.Some? && PrintItems(items[i + 1..], format, depth).Some? {
      var u := PrintItems(items[i + 1..], format, depth).value;
      assert done + (text.value + u) == done + text.value + u;
      assert i + 1 == |items| ==> text.value + u == text.value;
    }
  }

  lemma AllItems(done: Text, items: seq<Json>, format: bool, depth: nat)
    ensures Prepend(done, PrintItems(items[|items|..], format, depth)) == Some(done)
    ensures Prepend("", PrintItems(items[0..], format, depth)) == PrintItems(items, format, depth)
    ensures items == [] ==> PrintItems(items, format, depth) == Some("")
  {
    assert items[|items|..] == [] && items[0..] == items;
    assert done + "" == done;
    if PrintItems(items, format, depth).Some? {
      assert "" + PrintItems(items, format, depth).value == PrintItems(items, format, depth).value;
    }
  }

  /** The text of one member. */
  function OneMember(m: Member<Json>, more: bool, format: bool, depth: nat): Option<Text> {
    match Print(m.value, format, depth)
    case None => None
    case Some(t) => Some(MemberText(m.key, t, more, format, depth))
  }

  lemma MemberTextParts(m: Member<Json>, value: Option<Text>, more: bool, format: bool, depth: nat)
    requires value == Print(m.value, format, depth)
    ensures OneMember(m, more, format, depth) ==
            if value.None? then None
            else Some(KeyPart(m.key, format, depth) + value.value +
                ((if more then "," else "") + (if format then "\n" else "")))
  {
    hide Print, PrintString, Tabs;
    if value.Some? {
      var line := KeyPart(m.key, format, depth) + value.value;
      var comma, end := if more then "," else "", if format then "\n" else "";
      assert line + comma + end == line + (comma + end);
    }
  }

  lemma OneMoreMember(done: Text, ms: Members, i: nat, format: bool, depth: nat)
    requires i < |ms|
    ensures var text := OneMember(ms[i], i + 1 < |ms|, format, depth);
            Prepend(done, PrintMembers(ms[i..], format, depth)) ==
            if text.None? then None else Prepend(done + text.value, PrintMembers(ms[i + 1..], format, depth))
  {
    hide Print, MemberText;
    assert ms[i..][0] == ms[i] && ms[i..][1..] == ms[i + 1..];
    var text := OneMember(ms[i], i + 1 < |ms|, format, depth);
    if text.Some? && PrintMembers(ms[i + 1..], format, depth).Some? {
      var u := PrintMembers(ms[i + 1..], format, depth).value;
      assert done + (text.value + u) == done + text.value + u;
    }
  }

  lemma AllMembers(done: Text, ms: Members, format: bool, depth: nat)
    ensures Prepend(done, PrintMembers(ms[|ms|..], format, depth)) == Some(done)
    ensures Prepend("", PrintMembers(ms[0..], format, depth)) == PrintMembers(ms, format, depth)
    ensures ms == [] ==> PrintMembers(ms, format, depth) == Some("")
  {
    assert ms[|ms|..] == [] && ms[0..] == ms;
    assert done + "" == done;
    if PrintMembers(ms, format, depth).Some? {
      assert "" + PrintMembers(ms, format, depth).value == PrintMembers(ms, format, depth).value;
    }
  }

  // ---------------------------------------------------------------- entry points

  /** print, behind cJSON_Print and cJSON_PrintUnformatted. */
  method PrintTree(v: Json, format: bool) returns (text: Option<Text>)
    requires TreeNulFree(v)
    ensures text == if Fits(Print(v, format, 0), 0, INT_MAX) then Print(v, format, 0) else None
  {
    var space := new char[256];
    var p := new PrintBuffer(space, false, format);
    var ok := p.PrintValue(v);
    if !ok {
      return None;
    }
    assert "" + Print(v, format, 0).value == Print(v, format, 0).value;
    PrintedNulFree(v, format, 0);
    p.UpdateOffset("", Print(v, format, 0).value);
    text := Some(p.buffer[..p.offset]);
  }

  /** cJSON_PrintPreallocated. */
  method PrintPreallocated(v: Json, space: array?<char>, format: bool) returns (ok: bool)
    requires TreeNulFree(v) && (space != null ==> space.Length <= INT_MAX)
    modifies space
    ensures ok == (space != null && Fits(Print(v, format, 0), 0, space.Length))
    ensures ok ==> space[..|Print(v, format, 0).value|] == Print(v, format, 0).value
    ensures ok ==> space[|Print(v, format, 0).value|] == '\0'
  {
    if space == null {
      return false;
    }
    var p := new PrintBuffer(space, true, format);
    ok := p.PrintValue(v);
    assert ok ==> "" + Print(v, format, 0).value == Print(v, format, 0).value;
  }

  lemma QuotedText(s: Text)
    ensures PrintString(s) == "\"" + EscapeText(s) + "\""
  {
  }

  lemma {:induction false} EscapeAppend(a: Text, b: Text)
    ensures EscapeText(a + b) == EscapeText(a) + EscapeText(b)
  {
    if a == [] {
      assert a + b == b;
    } else {
      assert (a + b)[1..] == a[1..] + b;
      EscapeAppend(a[1..], b);
    }
  }

  lemma EscapeEmpty(s: Text)
    ensures EscapeText(s[..0]) == []
  {
    assert s[..0] == [];
  }

  lemma EscapeOneMore(s: Text, i: nat)
    requires i < |s|
    ensures EscapeText(s[..i + 1]) == EscapeText(s[..i]) + EscapeChar(s[i])
  {
    assert s[..i + 1] == s[..i] + [s[i]];
    EscapeAppend(s[..i], [s[i]]);
    assert EscapeText([s[i]]) == EscapeChar(s[i]) + EscapeText([]);
  }

  lemma EscapePrefix(s: Text, i: nat)
    requires i <= |s|
    ensures |EscapeText(s[..i])| <= |EscapeText(s)|
  {
    assert s == s[..i] + s[i..];
    EscapeAppend(s[..i], s[i..]);
  }
}
