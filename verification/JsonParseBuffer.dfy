/**
  The parser of cJSON on its buffer: a cursor and a nesting depth updated step by step.

  Each method computes the function of JsonText of the same purpose. parse_string also
  stores into an array of the size the first scan estimated; that no store falls outside
  is part of what is proved here, on every input.
 */
module JsonParseBuffer {
  import opened Basics
  import opened Decimals
  import opened JsonTree
  import opened JsonText

  // ---------------------------------------------------------------- the size estimate

  /** The first scan, begun at `start`, takes the character at `p` for the start of an escape. */
  ghost predicate EscapeAt(c: Text, start: nat, p: int)
    requires p < |c|
    decreases if p < 0 then 0 else p + 1
  {
    p >= start && c[p] == '\\' && !EscapeAt(c, start, p - 1)
  }

  /** How many escapes start before `p`; the estimate leaves one byte out for each. */
  ghost function Escapes(c: Text, start: nat, p: int): nat
    requires p <= |c|
    decreases if p < 0 then 0 else p
  {
    if p <= start then 0 else Escapes(c, start, p - 1) + if EscapeAt(c, start, p - 1) then 1 else 0
  }

  /** At most every second character starts an escape. */
  lemma {:induction false} EscapesSparse(c: Text, start: nat, p: nat, n: nat)
    requires start <= p && p + n <= |c|
    ensures Escapes(c, start, p + n) <= Escapes(c, start, p) + (n + 1) / 2
    decreases n
  {
    if n >= 2 {
      EscapesSparse(c, start, p, n - 2);
    }
  }

  lemma {:induction false} EscapesGrow(c: Text, start: nat, p: nat, q: nat)
    requires start <= p <= q <= |c|
    ensures Escapes(c, start, p) <= Escapes(c, start, q)
    decreases q
  {
    if p < q {
      EscapesGrow(c, start, p, q - 1);
    }
  }

  function Shifted(n: nat, r: Option<nat>): Option<nat> {
    match r
    case None => None
    case Some(m) => Some(n + m)
  }

  class ParseBuffer {
    const content: Text
    var offset: nat
    var depth: nat

    constructor (text: Text)
      ensures content == text && offset == 0 && depth == 0
    {
      content, offset, depth := text, 0, 0;
    }

    ghost predicate Valid()
      reads this
    {
      offset <= |content|
    }

    /** The text still to be read. */
    ghost function Rest(): Text
      requires Valid()
      reads this
    {
      content[offset..]
    }

    /** buffer_skip_whitespace. */
    method SkipSpace()
      requires Valid()
      modifies this`offset
      ensures Valid() && Rest() == SkipWhitespace(old(Rest())) && offset >= old(offset)
    {
      if offset >= |content| {
        return;
      }
      while offset < |content| && content[offset] as int <= 32
        invariant old(offset) <= offset <= |content|
        invariant offset < |content| ==> SkipWhitespace(Rest()) == SkipWhitespace(old(Rest()))
        invariant offset == |content| ==> SkipWhitespace(old(Rest())) == content[|content| - 1..]
        decreases |content| - offset
      {
        assert content[offset..][1..] == content[offset + 1..];
        offset := offset + 1;
      }
      if offset == |content| {
        offset := offset - 1;
      }
    }

    /** The first scan of parse_string: the closing quote and the escapes before it. */
    method FindClosingQuote(start: nat) returns (ok: bool, end: nat, skipped: nat)
      requires start <= |content|
      ensures ok == ClosingQuote(content[start..]).Some?
      ensures ok ==>
                end == start + ClosingQuote(content[start..]).value && start <= end < |content| && content[end] == '\"'
      ensures ok ==> skipped == Escapes(content, start, end) && !EscapeAt(content, start, end - 1)
    {
      hide EscapeAt, Escapes, ClosingQuote;
      NoEscapeYet(start);
      end, skipped := start, 0;
      while end < |content| && content[end] != '\"'
        invariant start <= end <= |content|
        invariant skipped == Escapes(content, start, end) && !EscapeAt(content, start, end - 1)
        invariant ClosingQuote(content[start..]) == Shifted(end - start, ClosingQuote(content[end..]))
        decreases |content| - end
      {
        if content[end] == '\\' {
          if end + 1 >= |content| {
            QuoteFound(end);
            return false, end, skipped;
          }
          EscapeSkipped(start, end);
          skipped := skipped + 1;
          end := end + 1;
        } else {
          CharacterSkipped(start, end);
        }
        end := end + 1;
      }
      ok := end < |content|;
      QuoteFound(end);
    }

    lemma NoEscapeYet(start: nat)
      requires start <= |content|
      ensures Escapes(content, start, start) == 0 && !EscapeAt(content, start, start - 1)
      ensures ClosingQuote(content[start..]) == Shifted(0, ClosingQuote(content[start..]))
    {
    }

    lemma EscapeSkipped(start: nat, end: nat)
      requires start <= end && end + 1 < |content| && content[end] == '\\' && !EscapeAt(content, start, end - 1)
      ensures Escapes(content, start, end + 2) == Escapes(content, start, end) + 1 && !EscapeAt(content, start, end + 1)
      ensures ClosingQuote(content[end..]) == Shifted(2, ClosingQuote(content[end + 2..]))
    {
      assert content[end..][2..] == content[end + 2..];
      assert EscapeAt(content, start, end);
    }

    lemma CharacterSkipped(start: nat, end: nat)
      requires start <= end < |content| && content[end] != '\\' && content[end] != '\"'
      ensures Escapes(content, start, end + 1) == Escapes(content, start, end) && !EscapeAt(content, start, end)
      ensures ClosingQuote(content[end..]) == Shifted(1, ClosingQuote(content[end + 1..]))
    {
      assert content[end..][1..] == content[end + 1..];
    }

    lemma QuoteFound(end: nat)
      requires end <= |content|
      ensures end < |content| && content[end] == '\"' ==> ClosingQuote(content[end..]) == Some(0)
      ensures end == |content| ==> ClosingQuote(content[end..]) == None
      ensures end + 1 == |content| && content[end] == '\\' ==> ClosingQuote(content[end..]) == None
    {
    }

    /** The stores of utf16_literal_to_utf8, last byte first. */
    static method StoreUtf8(output: array<char>, o: nat, cp: nat)
      requires cp <= 0x10FFFF && o + |Utf8(cp)| <= output.Length
      modifies output
      ensures output[..o] == old(output[..o]) && output[o..o + |Utf8(cp)|] == Utf8(cp)
    {
      var length := if cp < 0x80 then 1 else if cp < 0x800 then 2 else if cp < 0x10000 then 3 else 4;
      var mark := if length == 1 then 0 else if length == 2 then 0xC0 else if length == 3 then 0xE0 else 0xF0;
      var position := length - 1;
      var code := cp;
      while position > 0
        invariant 0 <= position < length == |Utf8(cp)|
        invariant code == if position == length - 1 then cp else if position == length - 2 then cp / 64
                            else if position == length - 3 then cp / 64 / 64 else cp / 64 / 64 / 64
        invariant output[..o] == old(output[..o])
        invariant forall k :: position < k < length ==> output[o + k] == Utf8(cp)[k]
      {
        output[o + position] := ByteChar(0x80 + code % 64);
        code := code / 64;
        position := position - 1;
      }
      output[o] := ByteChar(mark + code);
    }

    /** The bytes stored so far and those the rest of the literal will store. */
    ghost predicate Storing(output: array<char>, o: nat, start: nat, p: nat, end: nat)
      requires o <= output.Length && start <= end < |content| && p <= |content|
      reads output
    {
      Unescape(content[start..], end - start) == Prepend(output[..o], Unescape(content[p..], end - p))
    }

    lemma StoreStep(before: Text, after: Text, added: Text, start: nat, p: nat, n: nat, end: nat)
      requires start <= p < end < |content| && p + n <= end + 1 && after == before + added
      requires Unescape(content[start..], end - start) == Prepend(before, Unescape(content[p..], end - p))
      requires Unescape(content[p..], end - p) == Prepend(added, Unescape(content[p + n..], end - p - n))
      ensures Unescape(content[start..], end - start) == Prepend(after, Unescape(content[p + n..], end - p - n))
    {
      hide Unescape;
      match Unescape(content[p + n..], end - p - n)
      case None =>
      case Some(t) => assert before + (added + t) == before + added + t;
    }

    /** What one turn of the second scan consumes and stores: `n` characters for `added`, 0 on failure. */
    ghost function Turn(p: nat, end: nat): (r: (nat, Text))
      requires p < end < |content|
    {
      var r := content[p..];
      if r[0] != '\\' then (1, [r[0]])
      else if r[1] == 'u' then
        var (cp, len) := Utf16Literal(r, end - p);
        (len, if len == 0 then "" else Utf8(cp))
      else if SimpleEscape(r[1]).Some? then (2, [SimpleEscape(r[1]).value])
      else (0, "")
    }

    lemma TurnUnescapes(p: nat, end: nat)
      requires p < end < |content|
      ensures Turn(p, end).0 == 0 ==> Unescape(content[p..], end - p) == None
      ensures Turn(p, end).0 > 0 ==>
                && p + Turn(p, end).0 <= end + 1
                && Unescape(content[p..], end - p) ==
                   Prepend(Turn(p, end).1, Unescape(content[p + Turn(p, end).0..], end - p - Turn(p, end).0))
    {
      var r := content[p..];
      assert r[1..] == content[p + 1..] && r[2..] == content[p + 2..];
      var n := Turn(p, end).0;
      if n > 2 {
        assert r[n..] == content[p + n..];
      } else if n == 2 && end - p == 1 {
        assert [SimpleEscape(r[1]).value] + [] == [SimpleEscape(r[1]).value];
      }
    }

    /** Room for the stores of one turn, on any input: the two scans need not agree on where escapes start. */
    lemma RoomForTurn(start: nat, p: nat, end: nat, o: nat)
      requires start <= p < end < |content| && content[end] == '\"' && o + Escapes(content, start, p) <= p - start
      requires Turn(p, end).0 > 0
      ensures var (n, added) := Turn(p, end);
              && o + |added| + Escapes(content, start, p + n) <= p + n - start
              && o + |added| < end - start + 2 - Escapes(content, start, end)
    {
      var (n, added) := Turn(p, end);
      TurnUnescapes(p, end);
      if n == 1 {
        assert !EscapeAt(content, start, p);
      } else {
        EscapesSparse(content, start, p, n);
      }
      assert !EscapeAt(content, start, end);
      assert Escapes(content, start, end + 1) == Escapes(content, start, end);
      EscapesSparse(content, start, p + n, end + 1 - p - n);
    }

    /** One turn of the second scan: what is stored at `o` for the `n` characters at `p`. */
    method StoreTurn(output: array<char>, o: nat, p: nat, end: nat) returns (n: nat, next: nat)
      requires p < end < |content| && o <= output.Length
      requires Turn(p, end).0 > 0 ==> o + |Turn(p, end).1| <= output.Length
      modifies output
      ensures n == Turn(p, end).0
      ensures n > 0 ==>
                next == o + |Turn(p, end).1| <= output.Length && output[..next] == old(output[..o]) + Turn(p, end).1
    {
      n, next := 0, o;
      if content[p] != '\\' {
        output[o] := content[p];
        n, next := 1, o + 1;
      } else if content[p + 1] == 'u' {
        var (cp, len) := Utf16Literal(content[p..], end - p);
        if len > 0 {
          StoreUtf8(output, o, cp);
          n, next := len, o + |Utf8(cp)|;
          assert output[..next] == output[..o] + output[o..next];
        }
      } else if SimpleEscape(content[p + 1]).Some? {
        output[o] := SimpleEscape(content[p + 1]).value;
        n, next := 2, o + 1;
      }
    }

    /** parse_string: on success the cursor is behind the closing quote. */
    method ReadString() returns (ok: bool, s: Text)
      requires Valid() && offset < |content|
      modifies this`offset
      ensures Valid() && offset >= old(offset)
      ensures ok == ParseString(old(Rest())).Some?
      ensures ok ==> (s, Rest()) == ParseString(old(Rest())).value
    {
      hide Unescape, Turn, Escapes, EscapeAt, Utf8, Utf16Literal, SimpleEscape, ClosingQuote, CString;
      s := "";
      var start := offset + 1;
      assert content[offset..][1..] == content[start..];
      if content[offset] != '\"' {
        offset := start;
        return false, s;
      }
      var found, end, skipped := FindClosingQuote(start);
      if !found {
        offset := start;
        return false, s;
      }
      AllocationIsPositive(start, end);
      var output := new char[end - offset - skipped + 1];
      var p, o := start, 0;
      StoringStarts(output, start, end);
      while p < end
        invariant start <= p <= end + 1 && 0 <= o < output.Length
        invariant o + Escapes(content, start, p) <= p - start
        invariant Storing(output, o, start, p, end)
        decreases end - p
      {
        TurnUnescapes(p, end);
        ghost var before, turn := output[..o], Turn(p, end);
        if turn.0 > 0 {
          RoomForTurn(start, p, end, o);
        }
        var n, next := StoreTurn(output, o, p, end);
        if n == 0 {
          offset := p;
          return false, s;
        }
        StoreStep(before, output[..next], turn.1, start, p, n, end);
        o, p := next, p + n;
      }
      StoringEnds(output, o, start, p, end);
      output[o] := '\0';
      s := CString(output[..o]);
      assert content[old(offset)..][end - start + 2..] == content[end + 1..];
      offset := end + 1;
      ok := true;
    }

    lemma AllocationIsPositive(start: nat, end: nat)
      requires start <= end < |content|
      ensures Escapes(content, start, end) <= end - start && Escapes(content, start, start) == 0
    {
      EscapesSparse(content, start, start, end - start);
    }

    lemma StoringStarts(output: array<char>, start: nat, end: nat)
      requires start <= end < |content|
      ensures Storing(output, 0, start, start, end)
    {
      match Unescape(content[start..], end - start)
      case None =>
      case Some(t) => assert output[..0] + t == t;
    }

    lemma StoringEnds(output: array<char>, o: nat, start: nat, p: nat, end: nat)
      requires o <= output.Length && start <= end <= p <= end + 1 <= |content| && Storing(output, o, start, p, end)
      requires p < |content| || p == end + 1
      ensures Unescape(content[start..], end - start) == Some(output[..o])
    {
      assert output[..o] + [] == output[..o];
    }

    /** parse_number, with strtod as a function on exact reals. */
    method ReadNumber() returns (ok: bool, d: real)
      requires Valid()
      modifies this`offset
      ensures Valid()
      ensures var (n, number) := Strtod(old(Rest())[..NumberRun(old(Rest()))]);
              && ok == (n > 0)
              && (ok ==> d == number && Rest() == old(Rest())[n..])
    {
      var i: nat := 0;
      while offset + i < |content| && NumberChar(content[offset + i])
        invariant offset + i <= |content|
        invariant NumberRun(Rest()) == i + NumberRun(content[offset + i..])
        decreases |content| - i
      {
        assert content[offset + i..][1..] == content[offset + (i + 1)..];
        i := i + 1;
      }
      assert NumberRun(Rest()) == i;
      var run := content[offset..offset + i];
      assert run == Rest()[..i];
      var (n, number) := Strtod(run);
      ok, d := n > 0, number;
      if ok {
        assert Rest()[n..] == content[offset + n..];
        offset := offset + n;
      }
    }

    /** The next characters are those of `lit`. */
    predicate CanRead(lit: Text)
      requires Valid()
      reads this
      ensures CanRead(lit) <==> StartsWith(Rest(), lit)
    {
      offset + |lit| <= |content| && content[offset..offset + |lit|] == lit
    }

    /** parse_value. A failure may leave the cursor and the depth anywhere. */
    method ReadValue() returns (ok: bool, v: Json)
      requires Valid()
      modifies this
      ensures Valid()
      ensures ok == ParseValue(old(Rest()), old(depth)).Some?
      ensures ok ==> (v, Rest()) == ParseValue(old(Rest()), old(depth)).value && depth == old(depth)
      decreases |content| - offset, 1
    {
      hide Strtod, NumberRun, ParseString, ParseItems, ParseMembers, SkipWhitespace;
      v := Null;
      if CanRead("null") {
        assert Rest()[4..] == content[offset + 4..];
        offset := offset + 4;
        ok := true;
      } else if CanRead("false") {
        assert Rest()[5..] == content[offset + 5..];
        offset := offset + 5;
        ok, v := true, False;
      } else if CanRead("true") {
        assert Rest()[4..] == content[offset + 4..];
        offset := offset + 4;
        ok, v := true, True;
      } else if offset == |content| {
        ok := false;
      } else if content[offset] == '\"' {
        var s;
        ok, s := ReadString();
        v := String(s);
      } else if content[offset] == '-' || IsDigit(content[offset]) {
        var d;
        ok, d := ReadNumber();
        v := Number(d);
      } else if content[offset] == '[' {
        ok, v := ReadArray();
      } else if content[offset] == '{' {
        ok, v := ReadObject();
      } else {
        ok := false;
      }
    }

    /** parse_array. */
    method ReadArray() returns (ok: bool, v: Json)
      requires Valid() && offset < |content| && content[offset] == '['
      modifies this
      ensures Valid()
      ensures ok == ParseValue(old(Rest()), old(depth)).Some?
      ensures ok ==> (v, Rest()) == ParseValue(old(Rest()), old(depth)).value && depth == old(depth)
      decreases |content| - offset, 0
    {
      hide Strtod, NumberRun, ParseString, ParseItems, ParseMembers, SkipWhitespace;
      ok, v := false, Null;
      if depth >= NESTING_LIMIT {
        return;
      }
      depth := depth + 1;
      assert Rest()[1..] == content[offset + 1..];
      offset := offset + 1;
      SkipSpace();
      if offset < |content| && content[offset] == ']' {
        assert Rest()[1..] == content[offset + 1..];
        depth := depth - 1;
        offset := offset + 1;
        return true, Array([]);
      }
      if offset == |content| {
        offset := offset - 1;
        return;
      }
      offset := offset - 1;
      var items;
      ok, items := ReadItems();
      depth := if ok then depth - 1 else depth;
      v := Array(items);
    }

    /** The element loop of parse_array, from the character before the first element. */
    method ReadItems() returns (ok: bool, items: seq<Json>)
      requires Valid() && offset < |content|
      modifies this
      ensures Valid()
      ensures ok == ParseItems(old(content[offset + 1..]), old(depth)).Some?
      ensures ok ==> (items, Rest()) == ParseItems(old(content[offset + 1..]), old(depth)).value && depth == old(depth)
      decreases |content| - offset - 1, 2
    {
      hide Strtod, NumberRun, ParseString, ParseValue, ParseItems, SkipWhitespace;
      ok, items := false, [];
      ghost var goal := ParseItems(content[offset + 1..], depth);
      NoItemsBefore(content[offset + 1..], depth);
      var more := true;
      while more
        invariant old(offset) <= offset <= |content| && depth == old(depth)
        invariant more == (offset < |content| && (items == [] || content[offset] == ','))
        invariant more ==> goal == PrependItems(items, ParseItems(content[offset + 1..], depth))
        invariant !more ==> goal == AfterItem(items, Rest(), depth)
        decreases |content| - offset, more
      {
        ghost var before := content[offset + 1..];
        offset := offset + 1;
        SkipSpace();
        AfterOneItem(items, before, depth);
        var v;
        ok, v := ReadValue();
        if !ok {
          return;
        }
        SkipSpace();
        items := items + [v];
        more := offset < |content| && content[offset] == ',';
        assert offset < |content| ==> Rest()[1..] == content[offset + 1..];
      }
      if offset == |content| || content[offset] != ']' {
        return false, items;
      }
      assert Rest()[1..] == content[offset + 1..];
      offset := offset + 1;
      ok := true;
    }

    /** parse_object. */
    method ReadObject() returns (ok: bool, v: Json)
      requires Valid() && offset < |content| && content[offset] == '{'
      modifies this
      ensures Valid()
      ensures ok == ParseValue(old(Rest()), old(depth)).Some?
      ensures ok ==> (v, Rest()) == ParseValue(old(Rest()), old(depth)).value && depth == old(depth)
      decreases |content| - offset, 0
    {
      hide Strtod, NumberRun, ParseString, ParseItems, ParseMembers, SkipWhitespace;
      ok, v := false, Null;
      if depth >= NESTING_LIMIT {
        return;
      }
      depth := depth + 1;
      assert Rest()[1..] == content[offset + 1..];
      offset := offset + 1;
      SkipSpace();
      if offset < |content| && content[offset] == '}' {
        assert Rest()[1..] == content[offset + 1..];
        depth := depth - 1;
        offset := offset + 1;
        return true, Object([]);
      }
      if offset == |content| {
        offset := offset - 1;
        return;
      }
      offset := offset - 1;
      var members;
      ok, members := ReadMembers();
      depth := if ok then depth - 1 else depth;
      v := Object(members);
    }

    /** The member loop of parse_object, from the character before the first member. */
    method ReadMembers() returns (ok: bool, members: Members)
      requires Valid() && offset < |content|
      modifies this
      ensures Valid()
      ensures ok == ParseMembers(old(content[offset + 1..]), old(depth)).Some?
      ensures ok ==>
                (members, Rest()) == ParseMembers(old(content[offset + 1..]), old(depth)).value && depth == old(depth)
      decreases |content| - offset - 1, 2
    {
      hide Strtod, NumberRun, ParseString, ParseValue, ParseMembers, SkipWhitespace;
      ok, members := false, [];
      ghost var goal := ParseMembers(content[offset + 1..], depth);
      NoMembersBefore(content[offset + 1..], depth);
      var more := true;
      while more
        invariant old(offset) <= offset <= |content| && depth == old(depth)
        invariant more == (offset < |content| && (members == [] || content[offset] == ','))
        invariant more ==> goal == PrependMembers(members, ParseMembers(content[offset + 1..], depth))
        invariant !more ==> goal == AfterMember(members, Rest(), depth)
        decreases |content| - offset, more
      {
        ghost var before := content[offset + 1..];
        AfterOneMember(members, before, depth);
        var key;
        ok, key := ReadKey();
        if !ok {
          return;
        }
        var v;
        ok, v := ReadValue();
        if !ok {
          return;
        }
        SkipSpace();
        members := members + [Member(key, v)];
        more := offset < |content| && content[offset] == ',';
        assert offset < |content| ==> Rest()[1..] == content[offset + 1..];
      }
      if offset == |content| || content[offset] != '}' {
        return false, members;
      }
      assert Rest()[1..] == content[offset + 1..];
      offset := offset + 1;
      ok := true;
    }

    /** The part of parse_object from the character before a key to the value behind the colon. */
    method ReadKey() returns (ok: bool, key: Text)
      requires Valid() && offset < |content|
      modifies this`offset
      ensures Valid()
      ensures ok == KeyAndColon(old(content[offset + 1..])).Some?
      ensures ok ==> (key, Rest()) == KeyAndColon(old(content[offset + 1..])).value && offset > old(offset)
    {
      hide ParseString, SkipWhitespace;
      ok, key := false, "";
      if offset + 1 >= |content| {
        return;
      }
      offset := offset + 1;
      SkipSpace();
      assert Rest() != [];
      ok, key := ReadString();
      if !ok {
        return;
      }
      SkipSpace();
      if offset == |content| || content[offset] != ':' {
        return false, key;
      }
      assert Rest()[1..] == content[offset + 1..];
      offset := offset + 1;
      SkipSpace();
    }

    /** skip_utf8_bom. */
    method SkipByteOrderMark()
      requires offset == 0
      modifies this`offset
      ensures Valid() && Rest() == SkipBom(content)
    {
      if 4 < |content| && content[0] as int == 0xEF && content[1] as int == 0xBB && content[2] as int == 0xBF {
        offset := 3;
      }
    }
  }

  function PrependItems(items: seq<Json>, r: Option<(seq<Json>, Text)>): Option<(seq<Json>, Text)> {
    match r
    case None => None
    case Some((more, rest)) => Some((items + more, rest))
  }

  /** What the element loop still computes at `s`, the text after an element. */
  function AfterItem(items: seq<Json>, s: Text, depth: nat): Option<(seq<Json>, Text)> {
    if s != [] && s[0] == ',' then PrependItems(items, ParseItems(s[1..], depth))
    else if s != [] && s[0] == ']' then Some((items, s[1..]))
    else None
  }

  function WithItem(items: seq<Json>, parsed: Option<(Json, Text)>, depth: nat): Option<(seq<Json>, Text)> {
    match parsed
    case None => None
    case Some((v, after)) => AfterItem(items + [v], SkipWhitespace(after), depth)
  }

  lemma NoItemsBefore(r: Text, depth: nat)
    ensures PrependItems([], ParseItems(r, depth)) == ParseItems(r, depth)
  {
    match ParseItems(r, depth)
    case None =>
    case Some((more, rest)) => assert [] + more == more;
  }

  lemma AfterOneItem(items: seq<Json>, r: Text, depth: nat)
    ensures PrependItems(items, ParseItems(r, depth)) ==
            WithItem(items, ParseValue(SkipWhitespace(r), depth), depth)
  {
    hide ParseValue, SkipWhitespace;
    match ParseValue(SkipWhitespace(r), depth)
    case None =>
    case Some((v, after)) =>
      var s := SkipWhitespace(after);
      if s != [] && s[0] == ',' && ParseItems(s[1..], depth).Some? {
        var more := ParseItems(s[1..], depth).value.0;
        assert items + ([v] + more) == items + [v] + more;
      }
  }

  function PrependMembers(ms: Members, r: Option<(Members, Text)>): Option<(Members, Text)> {
    match r
    case None => None
    case Some((more, rest)) => Some((ms + more, rest))
  }

  /** What the member loop still computes at `s`, the text after a member. */
  function AfterMember(ms: Members, s: Text, depth: nat): Option<(Members, Text)> {
    if s != [] && s[0] == ',' then PrependMembers(ms, ParseMembers(s[1..], depth))
    else if s != [] && s[0] == '}' then Some((ms, s[1..]))
    else None
  }

  /** A key, its colon and the blanks around both. */
  function KeyAndColon(r: Text): Option<(Text, Text)> {
    if r == [] then None
    else
      match ParseString(SkipWhitespace(r))
      case None => None
      case Some((key, afterKey)) =>
        var colon := SkipWhitespace(afterKey);
        if colon == [] || colon[0] != ':' then None else Some((key, SkipWhitespace(colon[1..])))
  }

  function WithMember(ms: Members, parsed: Option<(Text, Text)>, depth: nat): Option<(Members, Text)> {
    match parsed
    case None => None
    case Some((key, text)) =>
      match ParseValue(text, depth)
      case None => None
      case Some((v, after)) => AfterMember(ms + [Member(key, v)], SkipWhitespace(after), depth)
  }

  lemma NoMembersBefore(r: Text, depth: nat)
    ensures PrependMembers([], ParseMembers(r, depth)) == ParseMembers(r, depth)
  {
    match ParseMembers(r, depth)
    case None =>
    case Some((more, rest)) => assert [] + more == more;
  }

  lemma AfterOneMember(ms: Members, r: Text, depth: nat)
    ensures PrependMembers(ms, ParseMembers(r, depth)) ==
            WithMember(ms, KeyAndColon(r), depth)
  {
    hide ParseValue, SkipWhitespace, ParseString;
    match KeyAndColon(r)
    case None =>
    case Some((key, text)) =>
      match ParseValue(text, depth)
      case None =>
      case Some((v, after)) =>
        var s := SkipWhitespace(after);
        if s != [] && s[0] == ',' && ParseMembers(s[1..], depth).Some? {
          var more := ParseMembers(s[1..], depth).value.0;
          assert ms + ([Member(key, v)] + more) == ms + [Member(key, v)] + more;
        }
  }

  /** cJSON_ParseWithOpts on the C string `text`. */
  method ParseWithOpts(text: Text, requireNullTerminated: bool) returns (item: Option<Json>)
    ensures item == Parse(text, requireNullTerminated)
  {
    hide ParseValue, SkipWhitespace, SkipBom;
    var buffer := new ParseBuffer(text + "\0");
    buffer.SkipByteOrderMark();
    buffer.SkipSpace();
    var ok, v := buffer.ReadValue();
    if !ok {
      return None;
    }
    if requireNullTerminated {
      buffer.SkipSpace();
      if buffer.offset >= |buffer.content| || buffer.content[buffer.offset] != '\0' {
        return None;
      }
    }
    item := Some(v);
  }
}
