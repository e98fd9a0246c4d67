/**
  Printing a tree and parsing the text gives the tree back, formatted or not; and what a
  "\u" escape turns into is the UTF-8 form of its code point.
 */
module JsonTextRoundTrip {
  import opened Basics
  import opened Decimals
  import opened JsonTree
  import opened JsonText

  // ---------------------------------------------------------------- strings

  predicate NulFree(s: Text) {
    '\0' !in s
  }

  lemma {:induction false} CStringOfNulFree(s: Text)
    requires NulFree(s)
    ensures CString(s) == s
  {
    if s != [] {
      CStringOfNulFree(s[1..]);
    }
  }

  /** Characters that the first scan of parse_string passes one at a time. */
  predicate Passed(c: char) {
    c != '\"' && c != '\\'
  }

  lemma {:induction false} QuoteAfterPassed(a: Text, r: Text)
    requires forall i :: 0 <= i < |a| ==> Passed(a[i])
    ensures ClosingQuote(a + r) == match ClosingQuote(r) { case None => None case Some(n) => Some(n + |a|) }
  {
    if a == [] {
      assert a + r == r;
    } else {
      assert (a + r)[1..] == a[1..] + r;
      QuoteAfterPassed(a[1..], r);
    }
  }

  /** An escape: the backslash and the character behind it are passed together. */
  lemma QuoteAfterBackslash(c: char, a: Text, r: Text)
    requires forall i :: 0 <= i < |a| ==> Passed(a[i])
    ensures ClosingQuote(['\\', c] + a + r) ==
            match ClosingQuote(r) { case None => None case Some(n) => Some(n + |a| + 2) }
  {
    var t := ['\\', c] + a + r;
    assert t[2..] == a + r;
    QuoteAfterPassed(a, r);
  }

  lemma QuoteAfterEscape(c: char, r: Text)
    ensures ClosingQuote(EscapeChar(c) + r) ==
            match ClosingQuote(r) { case None => None case Some(n) => Some(n + |EscapeChar(c)|) }
  {
    var e := EscapeChar(c);
    if |e| == 1 {
      QuoteAfterPassed(e, r);
    } else {
      assert e[0] == '\\' && forall i :: 2 <= i < |e| ==> Passed(e[i]);
      hide EscapeChar, Passed, ClosingQuote;
      QuoteAfterBackslash(e[1], e[2..], r);
      assert e == ['\\', e[1]] + e[2..];
    }
  }

  lemma QuoteFirst(rest: Text)
    ensures ClosingQuote("\"" + rest) == Some(0)
  {
  }

  lemma Regroup(a: Text, b: Text, c: Text)
    ensures a + b + "\"" + c == a + (b + "\"" + c)
  {
  }

  lemma {:induction false} QuoteAfterText(s: Text, rest: Text)
    ensures ClosingQuote(EscapeText(s) + "\"" + rest) == Some(|EscapeText(s)|)
  {
    hide EscapeChar, ClosingQuote;
    if s == [] {
      assert EscapeText(s) + "\"" + rest == "\"" + rest;
      QuoteFirst(rest);
    } else {
      QuoteAfterText(s[1..], rest);
      QuoteAfterEscape(s[0], EscapeText(s[1..]) + "\"" + rest);
      Regroup(EscapeChar(s[0]), EscapeText(s[1..]), rest);
    }
  }

  lemma ControlEscape(c: char, r: Text)
    requires c as int < 32
    ensures Hex4("00" + [HexDigit(c as int / 16), HexDigit(c as int % 16)] + r) == c as int
  {
    var t := "00" + [HexDigit(c as int / 16), HexDigit(c as int % 16)] + r;
    assert t[0] == '0' && t[1] == '0' && t[2] == HexDigit(c as int / 16) && t[3] == HexDigit(c as int % 16);
    assert HexValue(t[2]) == Some(c as int / 16) && HexValue(t[3]) == Some(c as int % 16);
  }

  /** Decoding one escaped character, with more of the string behind it. */
  lemma UnescapeChar(c: char, r: Text, n: nat)
    requires n < |r| && c != '\0'
    ensures Unescape(EscapeChar(c) + r, |EscapeChar(c)| + n) == Prepend([c], Unescape(r, n))
  {
    var e := EscapeChar(c);
    var t := e + r;
    assert t[|e|..] == r;
    if |e| == 2 {
      assert t[0] == '\\' && SimpleEscape(t[1]) == Some(c);
      if n == 0 {
        assert Unescape(r, 0) == Some([]);
        assert Unescape(t, 2) == Prepend([c], Unescape(t[2..], 0));
      }
    } else if |e| == 6 {
      assert t[2..] == "00" + [HexDigit(c as int / 16), HexDigit(c as int % 16)] + r;
      ControlEscape(c, r);
      assert Utf16Literal(t, 6 + n) == (c as int, 6);
      assert Utf8(c as int) == [c];
    }
  }

  lemma {:induction false} UnescapeText(s: Text, rest: Text)
    requires NulFree(s)
    ensures Unescape(EscapeText(s) + "\"" + rest, |EscapeText(s)|) == Some(s)
  {
    if s != [] {
      var tail := EscapeText(s[1..]) + "\"" + rest;
      UnescapeText(s[1..], rest);
      UnescapeChar(s[0], tail, |EscapeText(s[1..])|);
      assert EscapeText(s) + "\"" + rest == EscapeChar(s[0]) + tail;
      assert [s[0]] + s[1..] == s;
    }
  }

  /** A printed string parses back to itself. */
  lemma StringRoundTrip(s: Text, rest: Text)
    requires NulFree(s)
    ensures ParseString(PrintString(s) + rest) == Some((s, rest))
  {
    var e := EscapeText(s);
    var r := PrintString(s) + rest;
    assert r[1..] == e + "\"" + rest;
    QuoteAfterText(s, rest);
    UnescapeText(s, rest);
    CStringOfNulFree(s);
    assert r[|e| + 2..] == rest;
  }

  // ---------------------------------------------------------------- escapes and UTF-8

  /** The decoder of RFC 3629 for one character: shortest forms only, no surrogates. */
  function DecodeUtf8(s: Text): Option<nat> {
    if |s| == 1 && s[0] as int < 0x80 then Some(s[0] as int)
    else if |s| == 2 && 0xC2 <= s[0] as int <= 0xDF && Continuation(s[1]) then
      Some((s[0] as int - 0xC0) * 64 + (s[1] as int - 0x80))
    else if |s| == 3 && 0xE0 <= s[0] as int <= 0xEF && Continuation(s[1]) && Continuation(s[2]) then
      var cp := (s[0] as int - 0xE0) * 4096 + (s[1] as int - 0x80) * 64 + (s[2] as int - 0x80);
      if cp < 0x800 || 0xD800 <= cp <= 0xDFFF then None else Some(cp)
    else if |s| == 4 && 0xF0 <= s[0] as int <= 0xF4 && Continuation(s[1]) && Continuation(s[2]) &&
        Continuation(s[3]) then
      var cp := (s[0] as int - 0xF0) * 262144 + (s[1] as int - 0x80) * 4096 + (s[2] as int - 0x80) * 64 +
          (s[3] as int - 0x80);
      if cp < 0x10000 || cp > 0x10FFFF then None else Some(cp)
    else None
  }

  predicate Continuation(c: char) {
    0x80 <= c as int <= 0xBF
  }

  lemma Utf8IsStandard(cp: nat)
    requires cp <= 0x10FFFF && !(0xD800 <= cp <= 0xDFFF)
    ensures DecodeUtf8(Utf8(cp)) == Some(cp)
  {
    assert cp == cp / 64 * 64 + cp % 64;
    assert cp / 64 == cp / 64 / 64 * 64 + cp / 64 % 64 && cp / 64 / 64 == cp / 4096;
    assert cp / 4096 == cp / 4096 / 64 * 64 + cp / 4096 % 64 && cp / 4096 / 64 == cp / 262144;
  }

  /** The RFC 8259 code unit that four hexadecimal digits spell, in either letter case. */
  predicate SpellsUnit(r: Text, u: nat) {
    && |r| >= 4 && u <= 0xFFFF
    && HexValue(r[0]) == Some(u / 4096) && HexValue(r[1]) == Some(u / 256 % 16)
    && HexValue(r[2]) == Some(u / 16 % 16) && HexValue(r[3]) == Some(u % 16)
  }

  lemma Hex4Spells(r: Text, u: nat)
    requires SpellsUnit(r, u)
    ensures Hex4(r) == u
  {
    assert u == u / 16 * 16 + u % 16;
    assert u / 16 == u / 256 * 16 + u / 16 % 16;
    assert u / 256 == u / 4096 * 16 + u / 256 % 16;
  }

  /** A "\u" escape outside the surrogates becomes the UTF-8 form of its code unit, whatever follows. */
  lemma EscapeBecomesUtf8(r: Text, u: nat, n: nat)
    requires 6 <= n < |r| && r[..2] == "\\u" && SpellsUnit(r[2..], u) && !HighSurrogate(u) && !LowSurrogate(u)
    ensures Unescape(r, n) == Prepend(Utf8(u), Unescape(r[6..], n - 6)) && DecodeUtf8(Utf8(u)) == Some(u)
  {
    Hex4Spells(r[2..], u);
    Utf8IsStandard(u);
    assert r[0] == r[..2][0] && r[1] == r[..2][1];
    assert Utf16Literal(r, n) == (u, 6);
  }

  /** The two code units of a code point above the basic plane, and back. */
  lemma SurrogateUnits(cp: nat)
    requires 0x10000 <= cp <= 0x10FFFF
    ensures var hi, lo := 0xD800 + (cp - 0x10000) / 0x400, 0xDC00 + (cp - 0x10000) % 0x400;
            HighSurrogate(hi) && LowSurrogate(lo) && 0x10000 + (hi % 0x400) * 0x400 + lo % 0x400 == cp
  {
    var q := (cp - 0x10000) / 0x400;
    assert q < 0x400;
    assert (0xD800 + q) % 0x400 == q;
    assert (0xDC00 + (cp - 0x10000) % 0x400) % 0x400 == (cp - 0x10000) % 0x400;
  }

  lemma LiteralOfPair(r: Text, hi: nat, lo: nat, n: nat)
    requires 12 <= n < |r| && r[6] == '\\' && r[7] == 'u' && SpellsUnit(r[2..], hi) && SpellsUnit(r[8..], lo)
    requires HighSurrogate(hi)
    ensures Utf16Literal(r, n) ==
            if LowSurrogate(lo) then (0x10000 + (hi % 0x400) * 0x400 + lo % 0x400, 12) else (0, 0)
  {
    hide Hex4, SpellsUnit;
    Hex4Spells(r[2..], hi);
    Hex4Spells(r[8..], lo);
  }

  /** A surrogate pair becomes the UTF-8 form of the code point it stands for, whatever follows. */
  lemma PairBecomesUtf8(r: Text, cp: nat, n: nat)
    requires 12 <= n < |r| && r[..2] == "\\u" && r[6..8] == "\\u" && 0x10000 <= cp <= 0x10FFFF
    requires SpellsUnit(r[2..], 0xD800 + (cp - 0x10000) / 0x400) && SpellsUnit(r[8..], 0xDC00 + (cp - 0x10000) % 0x400)
    ensures Unescape(r, n) == Prepend(Utf8(cp), Unescape(r[12..], n - 12)) && DecodeUtf8(Utf8(cp)) == Some(cp)
  {
    hide SpellsUnit, Utf8, DecodeUtf8, Utf16Literal;
    assert r[0] == r[..2][0] && r[1] == r[..2][1] && r[6] == r[6..8][0] && r[7] == r[6..8][1];
    SurrogateUnits(cp);
    LiteralOfPair(r, 0xD800 + (cp - 0x10000) / 0x400, 0xDC00 + (cp - 0x10000) % 0x400, n);
    Utf8IsStandard(cp);
  }

  /** The characters after a unit spell a low surrogate. */
  predicate LowUnitFollows(r: Text, n: nat)
    requires n < |r|
  {
    n >= 12 && r[6..8] == "\\u" && LowSurrogate(Hex4(r[8..]))
  }

  /** A low unit, or a high unit that no low one follows, makes the string fail to parse. */
  lemma LoneSurrogateFails(r: Text, u: nat, n: nat)
    requires 6 <= n < |r| && r[..2] == "\\u" && SpellsUnit(r[2..], u)
    requires LowSurrogate(u) || (HighSurrogate(u) && !LowUnitFollows(r, n))
    ensures Unescape(r, n) == None
  {
    hide SpellsUnit, Hex4;
    Hex4Spells(r[2..], u);
    assert r[0] == r[..2][0] && r[1] == r[..2][1];
    if n >= 12 && r[6] == '\\' && r[7] == 'u' {
      assert r[6..8] == "\\u";
    }
    assert Utf16Literal(r, n).1 == 0;
  }

  // ---------------------------------------------------------------- every string of RFC 8259

  /** What the body of a string is made of (section 7 of RFC 8259). */
  datatype Piece =
    | Plain(c: char)
    | Short(letter: char)
    | Unit(digits: Text, u: nat)

  predicate IsPiece(p: Piece) {
    match p
    case Plain(c) => c != '\"' && c != '\\'
    case Short(letter) => SimpleEscape(letter).Some?
    case Unit(digits, u) => |digits| == 4 && SpellsUnit(digits, u)
  }

  predicate IsBody(ps: seq<Piece>) {
    forall i :: 0 <= i < |ps| ==> IsPiece(ps[i])
  }

  function SpellPiece(p: Piece): (r: Text)
    ensures r != []
  {
    match p
    case Plain(c) => [c]
    case Short(letter) => ['\\', letter]
    case Unit(digits, _) => "\\u" + digits
  }

  function Spell(ps: seq<Piece>): Text {
    if ps == [] then [] else SpellPiece(ps[0]) + Spell(ps[1..])
  }

  /** The bytes a body stands for; None if it has a surrogate that is not part of a pair. */
  function Meaning(ps: seq<Piece>): Option<Text>
    requires IsBody(ps)
    decreases |ps|
  {
    if ps == [] then Some([])
    else
      match ps[0]
      case Plain(c) => Prepend([c], Meaning(ps[1..]))
      case Short(letter) => Prepend([SimpleEscape(letter).value], Meaning(ps[1..]))
      case Unit(_, u) =>
        assert IsPiece(ps[0]);
        if LowSurrogate(u) then None
        else if !HighSurrogate(u) then Prepend(Utf8(u), Meaning(ps[1..]))
        else if |ps| > 1 && ps[1].Unit? && LowSurrogate(ps[1].u) then
          Prepend(Utf8(0x10000 + (u - 0xD800) * 0x400 + (ps[1].u - 0xDC00)), Meaning(ps[2..]))
        else None
  }

  lemma HexPasses(digits: Text, u: nat)
    requires |digits| == 4 && SpellsUnit(digits, u)
    ensures forall i :: 0 <= i < 4 ==> Passed(digits[i])
  {
  }

  lemma QuoteAfterPiece(p: Piece, r: Text)
    requires IsPiece(p)
    ensures ClosingQuote(SpellPiece(p) + r) ==
            match ClosingQuote(r) { case None => None case Some(n) => Some(n + |SpellPiece(p)|) }
  {
    match p
    case Plain(c) => QuoteAfterPassed([c], r);
    case Short(letter) =>
      hide ClosingQuote;
      QuoteAfterBackslash(letter, [], r);
      assert ['\\', letter] + [] == ['\\', letter];
    case Unit(digits, u) =>
      HexPasses(digits, u);
      hide ClosingQuote;
      QuoteAfterBackslash('u', digits, r);
  }

  lemma {:induction false} QuoteAfterBody(ps: seq<Piece>, rest: Text)
    requires IsBody(ps)
    ensures ClosingQuote(Spell(ps) + "\"" + rest) == Some(|Spell(ps)|)
  {
    hide SpellPiece, ClosingQuote;
    if ps == [] {
      assert Spell(ps) + "\"" + rest == "\"" + rest;
      QuoteFirst(rest);
    } else {
      QuoteAfterBody(ps[1..], rest);
      QuoteAfterPiece(ps[0], Spell(ps[1..]) + "\"" + rest);
      Regroup(SpellPiece(ps[0]), Spell(ps[1..]), rest);
    }
  }

  lemma SpellsPrefix(digits: Text, more: Text, u: nat)
    requires |digits| == 4 && SpellsUnit(digits, u)
    ensures SpellsUnit(digits + more, u)
  {
  }

  /** A unit at the front of a body. */
  lemma UnitInBody(ps: seq<Piece>, rest: Text)
    requires IsBody(ps) && ps != [] && ps[0].Unit?
    ensures var r := Spell(ps) + "\"" + rest;
            && r[..2] == "\\u" && SpellsUnit(r[2..], ps[0].u) && |Spell(ps)| == 6 + |Spell(ps[1..])|
            && r[6..] == Spell(ps[1..]) + "\"" + rest
  {
    assert IsPiece(ps[0]);
    hide SpellsUnit, IsPiece, Spell;
    var tail := Spell(ps[1..]);
    SpellUnfolds(ps);
    assert "\\u" + ps[0].digits + tail + "\"" + rest == "\\u" + ps[0].digits + (tail + "\"" + rest);
    CutUnit("\\u", ps[0].digits, tail + "\"" + rest);
    SpellsPrefix(ps[0].digits, tail + "\"" + rest, ps[0].u);
  }

  lemma SpellUnfolds(ps: seq<Piece>)
    requires ps != [] && ps[0].Unit?
    ensures Spell(ps) == "\\u" + ps[0].digits + Spell(ps[1..])
  {
  }

  lemma CutUnit(a: Text, d: Text, m: Text)
    requires |a| == 2 && |d| == 4
    ensures (a + d + m)[..2] == a && (a + d + m)[2..] == d + m && (a + d + m)[6..] == m
  {
  }

  lemma OnlyUnitsSpellU(p: Piece, more: Text)
    requires IsPiece(p) && !p.Unit? && |SpellPiece(p) + more| >= 2
    ensures (SpellPiece(p) + more)[..2] != "\\u"
  {
    var t := SpellPiece(p) + more;
    assert t[..2][0] == t[0] && t[..2][1] == t[1];
  }

  /** A high unit is followed by a low one in the text exactly if the next piece is a low unit. */
  lemma FollowingUnit(ps: seq<Piece>, rest: Text)
    requires IsBody(ps) && ps != [] && ps[0].Unit?
    ensures LowUnitFollows(Spell(ps) + "\"" + rest, |Spell(ps)|) <==> |ps| > 1 && ps[1].Unit? && LowSurrogate(ps[1].u)
  {
    hide Hex4, SpellsUnit, SpellPiece, LowSurrogate, IsPiece;
    var r, t := Spell(ps) + "\"" + rest, Spell(ps[1..]) + "\"" + rest;
    UnitInBody(ps, rest);
    assert r[6..] == t;
    if |ps| > 1 {
      var more := Spell(ps[1..][1..]) + "\"" + rest;
      assert t == SpellPiece(ps[1]) + more;
      assert |t| >= 2 && r[6..8] == t[..2];
      if ps[1].Unit? {
        UnitInBody(ps[1..], rest);
        assert r[8..] == t[2..];
        Hex4Spells(r[8..], ps[1].u);
      } else {
        OnlyUnitsSpellU(ps[1], more);
      }
    }
  }

  /** The second scan reads every body as the standard does. */
  lemma {:induction false} UnescapeBody(ps: seq<Piece>, rest: Text)
    requires IsBody(ps)
    ensures Unescape(Spell(ps) + "\"" + rest, |Spell(ps)|) == Meaning(ps)
    decreases |ps|
  {
    hide Utf8, SpellsUnit, SimpleEscape, Utf16Literal, LowUnitFollows;
    if ps != [] {
      var r, n := Spell(ps) + "\"" + rest, |Spell(ps)|;
      var t := Spell(ps[1..]) + "\"" + rest;
      assert r == SpellPiece(ps[0]) + t;
      assert IsPiece(ps[0]);
      UnescapeBody(ps[1..], rest);
      match ps[0]
      case Plain(c) => assert r[1..] == t;
      case Short(letter) => ShortInBody(letter, t, |Spell(ps[1..])|);
      case Unit(_, u) =>
        UnitInBody(ps, rest);
        FollowingUnit(ps, rest);
        if LowSurrogate(u) {
          LoneSurrogateFails(r, u, n);
        } else if !HighSurrogate(u) {
          EscapeBecomesUtf8(r, u, n);
        } else if |ps| > 1 && ps[1].Unit? && LowSurrogate(ps[1].u) {
          UnescapeBody(ps[2..], rest);
          PairInBody(ps, rest);
        } else {
          LoneSurrogateFails(r, u, n);
        }
    }
  }

  lemma ShortInBody(letter: char, t: Text, n: nat)
    requires SimpleEscape(letter).Some? && n < |t|
    ensures Unescape(['\\', letter] + t, n + 2) == Prepend([SimpleEscape(letter).value], Unescape(t, n))
  {
    var r := ['\\', letter] + t;
    assert r[2..] == t && letter != 'u';
  }

  lemma PairInBody(ps: seq<Piece>, rest: Text)
    requires IsBody(ps) && |ps| > 1 && ps[0].Unit? && HighSurrogate(ps[0].u) && ps[1].Unit? && LowSurrogate(ps[1].u)
    ensures Unescape(Spell(ps) + "\"" + rest, |Spell(ps)|) ==
            Prepend(Utf8(0x10000 + (ps[0].u - 0xD800) * 0x400 + (ps[1].u - 0xDC00)),
                    Unescape(Spell(ps[2..]) + "\"" + rest, |Spell(ps[2..])|))
  {
    hide SpellsUnit, Utf8, DecodeUtf8, Unescape, Spell;
    var r, n := Spell(ps) + "\"" + rest, |Spell(ps)|;
    var cp := 0x10000 + (ps[0].u - 0xD800) * 0x400 + (ps[1].u - 0xDC00);
    UnitInBody(ps, rest);
    UnitInBody(ps[1..], rest);
    assert ps[1..][1..] == ps[2..];
    var t := r[6..];
    assert r[6..8] == t[..2] && r[8..] == t[2..] && r[12..] == t[6..];
    assert (cp - 0x10000) / 0x400 == ps[0].u - 0xD800 && (cp - 0x10000) % 0x400 == ps[1].u - 0xDC00;
    PairBecomesUtf8(r, cp, n);
  }

  /**
    parse_string reads every string that RFC 8259 allows: it gives the bytes the body stands
    for, up to a NUL, and fails exactly if the body has a surrogate that is not part of a pair.
   */
  lemma ParseStringReadsAll(ps: seq<Piece>, rest: Text)
    requires IsBody(ps)
    ensures ParseString("\"" + Spell(ps) + "\"" + rest) ==
            match Meaning(ps) { case None => None case Some(t) => Some((CString(t), rest)) }
  {
    hide Meaning, Unescape, ClosingQuote;
    var r := "\"" + Spell(ps) + "\"" + rest;
    assert r[1..] == Spell(ps) + "\"" + rest;
    QuoteAfterBody(ps, rest);
    UnescapeBody(ps, rest);
    assert r[|Spell(ps)| + 2..] == rest;
  }

  // ---------------------------------------------------------------- numbers

  predicate Delimited(rest: Text) {
    rest == [] || !NumberChar(rest[0])
  }

  lemma {:induction false} DigitRunWhole(s: Text)
    requires forall i :: 0 <= i < |s| ==> IsDigit(s[i])
    ensures DigitRun(s) == |s|
  {
    if s != [] {
      DigitRunWhole(s[1..]);
    }
  }

  lemma {:induction false} NumberRunWhole(s: Text, rest: Text)
    requires forall i :: 0 <= i < |s| ==> NumberChar(s[i])
    requires Delimited(rest)
    ensures NumberRun(s + rest) == |s|
  {
    if s == [] {
      assert s + rest == rest;
    } else {
      assert (s + rest)[1..] == s[1..] + rest;
      NumberRunWhole(s[1..], rest);
    }
  }

  lemma StrtodOfDecimal(n: nat)
    ensures Mantissa(Decimal(n)) == (|Decimal(n)|, n as real)
  {
    var s := Decimal(n);
    DigitRunWhole(s);
    NatOfDecimal(n);
    assert s[..|s|] == s;
  }

  lemma StrtodOfInt(n: int)
    ensures Strtod(IntText(n)) == (|IntText(n)|, n as real)
  {
    var s := IntText(n);
    var m: nat := if n < 0 then -n else n;
    StrtodOfDecimal(m);
    var sign := if n < 0 then 1 else 0;
    assert s[sign..] == Decimal(m);
    if n >= 0 { assert IsDigit(s[0]); }
    assert s[|s|..] == [];
    assert Exponent(s[sign + |Decimal(m)|..]) == (0, 0);
    assert Pow10(0) == 1.0;
  }

  lemma NoLiteral(r: Text)
    requires r != [] && r[0] != 'n' && r[0] != 'f' && r[0] != 't'
    ensures !StartsWith(r, "null") && !StartsWith(r, "false") && !StartsWith(r, "true")
  {
  }

  lemma NumberRoundTrip(d: real, rest: Text, depth: nat)
    requires IsInt(d) && Delimited(rest)
    ensures ParseValue(IntText(ValueInt(d)) + rest, depth) == Some((Number(d), rest))
  {
    var n := ValueInt(d);
    var t := IntText(n);
    var r := t + rest;
    NumberRunWhole(t, rest);
    StrtodOfInt(n);
    assert r[..|t|] == t && r[|t|..] == rest;
    assert r[0] == t[0] && (t[0] == '-' || IsDigit(t[0]));
    NoLiteral(r);
  }

  // ---------------------------------------------------------------- whole trees

  /** No string or key of the tree contains a NUL, as C strings cannot. */
  predicate TreeNulFree(v: Json) {
    match v
    case String(s) => NulFree(s)
    case Array(items) => forall i :: 0 <= i < |items| ==> TreeNulFree(items[i])
    case Object(ms) => forall i :: 0 <= i < |ms| ==> NulFree(ms[i].key) && TreeNulFree(ms[i].value)
    case _ => true
  }

  lemma {:induction false} SkipPadding(pad: Text, r: Text)
    requires forall i :: 0 <= i < |pad| ==> pad[i] as int <= 32
    requires r != [] && r[0] as int > 32
    ensures SkipWhitespace(pad + r) == r
  {
    if pad == [] {
      assert pad + r == r;
    } else {
      assert (pad + r)[1..] == pad[1..] + r;
      SkipPadding(pad[1..], r);
    }
  }

  /** A printed value starts with a visible character that does not close an array. */
  lemma PrintedStart(v: Json, format: bool, depth: nat)
    requires Print(v, format, depth).Some?
    ensures var t := Print(v, format, depth).value; t != [] && t[0] as int > 32 && t[0] != ']'
  {
  }

  predicate Padding(pad: Text) {
    forall i :: 0 <= i < |pad| ==> pad[i] as int <= 32
  }

  lemma ParseArrayText(t: Text, depth: nat)
    requires depth < NESTING_LIMIT && t != [] && t[0] as int > 32 && t[0] != ']'
    ensures ParseValue("[" + t, depth) ==
            match ParseItems(t, depth + 1) { case None => None case Some((items, rest)) => Some((Array(items), rest)) }
  {
    var r := "[" + t;
    assert r[1..] == t;
    NoLiteral(r);
  }

  lemma {:induction false} SkipIdempotent(r: Text)
    ensures SkipWhitespace(SkipWhitespace(r)) == SkipWhitespace(r)
  {
    if r != [] && r[0] as int <= 32 && |r| > 1 {
      SkipIdempotent(r[1..]);
    }
  }

  lemma ParseObjectText(t: Text, depth: nat)
    requires depth < NESTING_LIMIT && t != [] && SkipWhitespace(t)[0] != '}'
    ensures ParseValue("{" + t, depth) ==
            match ParseMembers(t, depth + 1) { case None => None case Some((ms, rest)) => Some((Object(ms), rest)) }
  {
    var r := "{" + t;
    assert r[1..] == t;
    SkipIdempotent(t);
    assert ParseMembers(SkipWhitespace(t), depth + 1) == ParseMembers(t, depth + 1);
    NoLiteral(r);
  }

  /** Printing and then parsing gives the tree back and stops where the printed text ends. */
  lemma {:induction false} ValueRoundTrip(v: Json, format: bool, depth: nat, rest: Text)
    requires Print(v, format, depth).Some? && TreeNulFree(v) && Delimited(rest)
    ensures ParseValue(Print(v, format, depth).value + rest, depth) == Some((v, rest))
    decreases v, 1
  {
    var t := Print(v, format, depth).value;
    match v
    case Null => assert (t + rest)[..4] == t && (t + rest)[4..] == rest;
    case True => assert (t + rest)[..4] == t && (t + rest)[4..] == rest;
    case False =>
      var r := t + rest;
      assert r[..5] == t && r[5..] == rest && r[..4][0] == 'f';
      assert !StartsWith(r, "null");
    case Number(d) => NumberRoundTrip(d, rest, depth);
    case String(s) =>
      StringRoundTrip(s, rest);
      NoLiteral(t + rest);
    case Array(items) => ArrayRoundTrip(items, format, depth, rest);
    case Object(ms) => ObjectRoundTrip(ms, format, depth, rest);
  }

  lemma {:induction false} ArrayRoundTrip(items: seq<Json>, format: bool, depth: nat, rest: Text)
    requires Print(Array(items), format, depth).Some? && TreeNulFree(Array(items))
    ensures ParseValue(Print(Array(items), format, depth).value + rest, depth) == Some((Array(items), rest))
    decreases items, 3
  {
    hide ParseValue, ParseItems, PrintItems;
    NoItemsText(format, depth + 1);
    var u := PrintItems(items, format, depth + 1).value;
    var text := "[" + u + "]" + rest;
    if items == [] {
      EmptyArrayText(rest, depth);
      assert text == "[]" + rest;
    } else {
      ItemsStart(items, format, depth + 1);
      ItemsRoundTrip(items, format, depth + 1, [], rest);
      assert text == "[" + (u + "]" + rest) && [] + (u + "]" + rest) == u + "]" + rest;
      ParseArrayText(u + "]" + rest, depth);
    }
  }

  lemma NoItemsText(format: bool, depth: nat)
    ensures PrintItems([], format, depth) == Some("")
  {
  }

  lemma EmptyArrayText(rest: Text, depth: nat)
    requires depth < NESTING_LIMIT
    ensures ParseValue("[]" + rest, depth) == Some((Array([]), rest))
  {
    hide ParseItems;
    var text := "[]" + rest;
    assert text[1..] == "]" + rest && ("]" + rest)[1..] == rest;
    NoLiteral(text);
  }

  lemma ItemsStart(items: seq<Json>, format: bool, depth: nat)
    requires items != [] && PrintItems(items, format, depth).Some?
    ensures var u := PrintItems(items, format, depth).value; u != [] && u[0] as int > 32 && u[0] != ']'
  {
    PrintedStart(items[0], format, depth);
  }

  lemma {:induction false} ItemsRoundTrip(items: seq<Json>, format: bool, depth: nat, pad: Text, rest: Text)
    requires items != [] && PrintItems(items, format, depth).Some? && TreeNulFree(Array(items)) && Padding(pad)
    ensures ParseItems(pad + (PrintItems(items, format, depth).value + "]" + rest), depth) == Some((items, rest))
    decreases items, 2
  {
    hide Print, ParseValue, ParseItems, SkipWhitespace, PrintItems;
    ItemsText(items, format, depth);
    var t := Print(items[0], format, depth).value;
    PrintedStart(items[0], format, depth);
    if |items| == 1 {
      ValueRoundTrip(items[0], format, depth, "]" + rest);
      ItemRoundTrip(items[0], pad, t, "]" + rest, depth);
      SkipNothing("]" + rest);
      assert t + "]" + rest == t + ("]" + rest) && ("]" + rest)[1..] == rest;
      assert [items[0]] == items;
    } else {
      var w := PrintItems(items[1..], format, depth).value;
      var gap := if format then " " else "";
      var after := "," + (gap + (w + "]" + rest));
      ValueRoundTrip(items[0], format, depth, after);
      ItemRoundTrip(items[0], pad, t, after, depth);
      SkipNothing(after);
      assert t + (if format then ", " else ",") + w + "]" + rest == t + after;
      assert after[1..] == gap + (w + "]" + rest);
      ItemsRoundTrip(items[1..], format, depth, gap, rest);
      assert [items[0]] + items[1..] == items;
    }
  }

  lemma ItemsText(items: seq<Json>, format: bool, depth: nat)
    requires items != [] && PrintItems(items, format, depth).Some?
    ensures Print(items[0], format, depth).Some?
    ensures var t := Print(items[0], format, depth).value;
            && (|items| == 1 ==> PrintItems(items, format, depth) == Some(t))
            && (|items| > 1 ==>
                  && PrintItems(items[1..], format, depth).Some?
                  && PrintItems(items, format, depth) ==
                     Some(t + (if format then ", " else ",") + PrintItems(items[1..], format, depth).value))
  {
    hide Print;
  }

  lemma SkipNothing(r: Text)
    requires r != [] && r[0] as int > 32
    ensures SkipWhitespace(r) == r
  {
  }

  /** Parsing one element: its value is read back, and what follows decides how to go on. */
  lemma ItemRoundTrip(v: Json, pad: Text, t: Text, r: Text, depth: nat)
    requires Padding(pad) && t != [] && t[0] as int > 32 && ParseValue(t + r, depth) == Some((v, r))
    ensures ParseItems(pad + (t + r), depth) ==
            var s := SkipWhitespace(r);
            if s == [] then None
            else if s[0] == ',' then
              (match ParseItems(s[1..], depth)
               case None => None
               case Some((items, rest)) => Some(([v] + items, rest)))
            else if s[0] == ']' then Some(([v], s[1..]))
            else None
  {
    hide ParseValue, SkipWhitespace;
    SkipPadding(pad, t + r);
  }

  /** What follows the last line of a printed object: the closing brace, indented when formatted. */
  function Closing(format: bool, depth: nat): Text {
    (if format then Tabs(depth) else "") + "}"
  }

  /** The start of a member line, up to its value. */
  function KeyPart(key: Text, format: bool, depth: nat): Text {
    (if format then Tabs(depth) else "") + PrintString(key) + (if format then ":\t" else ":")
  }

  lemma KeyPartStart(pad: Text, key: Text, format: bool, depth: nat, r: Text)
    requires Padding(pad)
    ensures SkipWhitespace(pad + (KeyPart(key, format, depth) + r)) ==
            PrintString(key) + ((if format then ":\t" else ":") + r)
  {
    var indent := if format then Tabs(depth) else "";
    var body := PrintString(key) + ((if format then ":\t" else ":") + r);
    assert pad + (KeyPart(key, format, depth) + r) == (pad + indent) + body;
    SkipPadding(pad + indent, body);
  }

  /** Parsing one member: its key and value are read back, and what follows decides how to go on. */
  lemma MemberRoundTrip(m: Member<Json>, format: bool, depth: nat, pad: Text, t: Text, r: Text)
    requires NulFree(m.key) && Padding(pad) && t != [] && t[0] as int > 32
    requires ParseValue(t + r, depth) == Some((m.value, r))
    ensures ParseMembers(pad + (KeyPart(m.key, format, depth) + (t + r)), depth) ==
            var s := SkipWhitespace(r);
            if s == [] then None
            else if s[0] == ',' then
              (match ParseMembers(s[1..], depth)
               case None => None
               case Some((ms, rest)) => Some(([m] + ms, rest)))
            else if s[0] == '}' then Some(([m], s[1..]))
            else None
  {
    hide ParseValue, ParseString, KeyPart, SkipWhitespace, PrintString, Padding;
    var colon := (if format then ":\t" else ":") + (t + r);
    var x := pad + (KeyPart(m.key, format, depth) + (t + r));
    KeyPartLong(m.key, format, depth);
    KeyPartStart(pad, m.key, format, depth, t + r);
    StringRoundTrip(m.key, colon);
    ColonPart(format, t, r);
    assert x != [] && Member(m.key, m.value) == m;
  }

  /** The colon and the gap behind it. */
  lemma ColonPart(format: bool, t: Text, r: Text)
    requires t != [] && t[0] as int > 32
    ensures var colon := (if format then ":\t" else ":") + (t + r);
            colon != [] && colon[0] == ':' && SkipWhitespace(colon) == colon && SkipWhitespace(colon[1..]) == t + r
  {
    hide SkipWhitespace;
    var colon := (if format then ":\t" else ":") + (t + r);
    var gap := if format then "\t" else "";
    SkipNothing(colon);
    assert colon[1..] == gap + (t + r);
    SkipPadding(gap, t + r);
  }

  lemma KeyPartLong(key: Text, format: bool, depth: nat)
    ensures |KeyPart(key, format, depth)| > 0
  {
  }

  lemma {:induction false} MembersRoundTrip(ms: Members, format: bool, depth: nat, pad: Text, rest: Text)
    requires ms != [] && PrintMembers(ms, format, depth + 1).Some? && TreeNulFree(Object(ms)) && Padding(pad)
    ensures ParseMembers(pad + (PrintMembers(ms, format, depth + 1).value + (Closing(format, depth) + rest)),
            depth + 1) == Some((ms, rest))
    decreases ms, 2
  {
    hide Print, ParseValue, KeyPart, ParseMembers, MemberText, SkipWhitespace;
    var m := ms[0];
    var t := Print(m.value, format, depth + 1).value;
    var u := PrintMembers(ms[1..], format, depth + 1).value;
    var nl := if format then "\n" else "";
    PrintedStart(m.value, format, depth + 1);
    if |ms| == 1 {
      var r := nl + (Closing(format, depth) + rest);
      LastMemberText(m, t, format, depth + 1, Closing(format, depth) + rest);
      ValueRoundTrip(m.value, format, depth + 1, r);
      MemberRoundTrip(m, format, depth + 1, pad, t, r);
      ClosingSkipped(format, depth, rest);
      assert [m] == ms;
    } else {
      var w := u + (Closing(format, depth) + rest);
      var r := "," + (nl + w);
      MoreMemberText(m, t, format, depth + 1, w);
      assert PrintMembers(ms, format, depth + 1).value + (Closing(format, depth) + rest) ==
          MemberText(m.key, t, true, format, depth + 1) + w;
      ValueRoundTrip(m.value, format, depth + 1, r);
      MemberRoundTrip(m, format, depth + 1, pad, t, r);
      assert r[1..] == nl + w;
      SkipNothing(r);
      MembersRoundTrip(ms[1..], format, depth, nl, rest);
      assert [m] + ms[1..] == ms;
    }
  }

  lemma LastMemberText(m: Member<Json>, t: Text, format: bool, depth: nat, r: Text)
    ensures (MemberText(m.key, t, false, format, depth) + "") + r ==
            KeyPart(m.key, format, depth) + (t + ((if format then "\n" else "") + r))
  {
  }

  lemma MoreMemberText(m: Member<Json>, t: Text, format: bool, depth: nat, r: Text)
    ensures MemberText(m.key, t, true, format, depth) + r ==
            KeyPart(m.key, format, depth) + (t + ("," + ((if format then "\n" else "") + r)))
  {
  }

  lemma AnyMemberText(m: Member<Json>, t: Text, more: bool, format: bool, depth: nat, r: Text)
    ensures MemberText(m.key, t, more, format, depth) + r ==
            KeyPart(m.key, format, depth) + (t + ((if more then "," else "") + (if format then "\n" else "") + r))
  {
  }

  lemma ClosingSkipped(format: bool, depth: nat, rest: Text)
    ensures SkipWhitespace((if format then "\n" else "") + (Closing(format, depth) + rest)) == "}" + rest
    ensures ("}" + rest)[1..] == rest
  {
    var pad := if format then "\n" + Tabs(depth) else "";
    assert (if format then "\n" else "") + (Closing(format, depth) + rest) == pad + ("}" + rest);
    SkipPadding(pad, "}" + rest);
  }

  lemma {:induction false} ObjectRoundTrip(ms: Members, format: bool, depth: nat, rest: Text)
    requires Print(Object(ms), format, depth).Some? && TreeNulFree(Object(ms))
    ensures ParseValue(Print(Object(ms), format, depth).value + rest, depth) == Some((Object(ms), rest))
    decreases ms, 3
  {
    hide PrintMembers, ParseMembers;
    var u := PrintMembers(ms, format, depth + 1).value;
    var nl := if format then "\n" else "";
    var body := nl + (u + (Closing(format, depth) + rest));
    var text := Print(Object(ms), format, depth).value + rest;
    assert text == "{" + body;
    if ms == [] {
      NoMembersText(format, depth + 1);
      assert body == nl + (Closing(format, depth) + rest);
      ClosingSkipped(format, depth, rest);
      assert text[1..] == body;
      NoLiteral(text);
    } else {
      MembersRoundTrip(ms, format, depth, nl, rest);
      MembersStart(ms, format, depth, nl, rest);
      ParseObjectText(body, depth);
    }
  }

  lemma NoMembersText(format: bool, depth: nat)
    ensures PrintMembers([], format, depth) == Some("")
  {
  }

  lemma MembersStart(ms: Members, format: bool, depth: nat, pad: Text, rest: Text)
    requires ms != [] && PrintMembers(ms, format, depth + 1).Some? && Padding(pad)
    ensures SkipWhitespace(pad + (PrintMembers(ms, format, depth + 1).value + (Closing(format, depth) + rest)))[0] ==
            '\"'
  {
    hide Print, KeyPart, Closing, PrintString;
    var m := ms[0];
    var t := Print(m.value, format, depth + 1).value;
    var u := PrintMembers(ms[1..], format, depth + 1).value;
    var w := u + (Closing(format, depth) + rest);
    assert PrintMembers(ms, format, depth + 1).value + (Closing(format, depth) + rest) ==
           MemberText(m.key, t, |ms| > 1, format, depth + 1) + w;
    var r := (if |ms| > 1 then "," else "") + (if format then "\n" else "") + w;
    AnyMemberText(m, t, |ms| > 1, format, depth + 1, w);
    KeyPartStart(pad, m.key, format, depth + 1, t + r);
  }

  /**
    What cJSON_Print or cJSON_PrintUnformatted writes for a tree, cJSON_Parse reads back as
    the same tree, whether or not it insists on the terminating NUL.
   */
  lemma PrintParseRoundTrip(v: Json, format: bool, requireNullTerminated: bool)
    requires TreeNulFree(v) && Print(v, format, 0).Some?
    ensures Parse(Print(v, format, 0).value, requireNullTerminated) == Some(v)
  {
    var t := Print(v, format, 0).value;
    PrintedStart(v, format, 0);
    PrintedAscii(v, format, 0);
    ValueRoundTrip(v, format, 0, "\0");
    assert SkipWhitespace(t + "\0") == t + "\0";
    assert SkipWhitespace("\0") == "\0";
  }

  lemma PrintedAscii(v: Json, format: bool, depth: nat)
    requires Print(v, format, depth).Some?
    ensures Print(v, format, depth).value[0] as int != 0xEF
  {
  }
}
