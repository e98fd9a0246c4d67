/**
  JSON text: what cJSON prints for a tree and what it parses, as functions of the text
  still to be read. The buffer code that computes both is in JsonParseBuffer and JsonPrintBuffer.

  Numbers are exact reals, so the rounding of strtod and the "%1.15g" form that cJSON
  uses for a number that is not a C int are not described: such a number has no printed
  text here.
 */
module JsonText {
  import opened Basics
  import opened Decimals
  import opened JsonTree

  const NESTING_LIMIT := 1000

  // ---------------------------------------------------------------- digits

  /** sprintf "%d". */
  function IntText(n: int): (r: Text)
    ensures r != [] && (r[0] == '-' || IsDigit(r[0]))
    ensures forall i :: 0 <= i < |r| ==> NumberChar(r[i])
  {
    if n < 0 then "-" + Decimal(-n) else Decimal(n)
  }

  /** The value of a run of digits. */
  function NatOf(s: Text): nat
    requires forall i :: 0 <= i < |s| ==> IsDigit(s[i])
  {
    if s == [] then 0
    else
      assert IsDigit(s[|s| - 1]);
      10 * NatOf(s[..|s| - 1]) + (s[|s| - 1] as int - 48)
  }

  lemma {:induction false} NatOfDecimal(n: nat)
    ensures NatOf(Decimal(n)) == n
  {
    if n >= 10 {
      NatOfDecimal(n / 10);
      assert Decimal(n)[..|Decimal(n)| - 1] == Decimal(n / 10);
    } else {
      assert Decimal(n)[..0] == [];
    }
  }

  // ---------------------------------------------------------------- printing

  function HexDigit(d: nat): char
    requires d < 16
  {
    if d < 10 then (48 + d) as char else (87 + d) as char
  }

  /** How print_string_ptr writes one byte. */
  function EscapeChar(c: char): (r: Text)
    ensures r != []
  {
    if c == '\"' then "\\\""
    else if c == '\\' then "\\\\"
    else if c as int == 8 then "\\b"
    else if c as int == 12 then "\\f"
    else if c as int == 10 then "\\n"
    else if c as int == 13 then "\\r"
    else if c as int == 9 then "\\t"
    else if c as int < 32 then "\\u00" + [HexDigit(c as int / 16), HexDigit(c as int % 16)]
    else [c]
  }

  function EscapeText(s: Text): Text {
    if s == [] then [] else EscapeChar(s[0]) + EscapeText(s[1..])
  }

  function PrintString(s: Text): (r: Text)
    ensures r != [] && r[0] == '\"'
  {
    "\"" + EscapeText(s) + "\""
  }

  function Tabs(n: nat): (r: Text)
    ensures |r| == n && forall i :: 0 <= i < n ==> r[i] == '\t'
  {
    seq(n, _ => '\t')
  }

  /** print_value at a nesting depth; None where the printer gives up. */
  function Print(v: Json, format: bool, depth: nat): Option<Text>
    decreases v, 1
  {
    match v
    case Invalid => None
    case Null => Some("null")
    case False => Some("false")
    case True => Some("true")
    case Number(d) => if IsInt(d) then Some(IntText(ValueInt(d))) else None
    case String(s) => Some(PrintString(s))
    case Array(items) =>
      if depth >= NESTING_LIMIT then None
      else
        (match PrintItems(items, format, depth + 1)
         case None => None
         case Some(t) => Some("[" + t + "]"))
    case Object(ms) =>
      if depth >= NESTING_LIMIT then None
      else
        (match PrintMembers(ms, format, depth + 1)
         case None => None
         case Some(t) => Some((if format then "{\n" else "{") + t + (if format then Tabs(depth) else "") + "}"))
  }

  function PrintItems(items: seq<Json>, format: bool, depth: nat): Option<Text>
    decreases items, 0
  {
    if items == [] then Some("")
    else
      match Print(items[0], format, depth)
      case None => None
      case Some(t) =>
        if |items| == 1 then Some(t)
        else
          match PrintItems(items[1..], format, depth)
          case None => None
          case Some(u) => Some(t + (if format then ", " else ",") + u)
  }

  function PrintMembers(ms: Members, format: bool, depth: nat): Option<Text>
    decreases ms, 0
  {
    if ms == [] then Some("")
    else
      match Print(ms[0].value, format, depth)
      case None => None
      case Some(t) =>
        match PrintMembers(ms[1..], format, depth)
        case None => None
        case Some(u) => Some(MemberText(ms[0].key, t, |ms| > 1, format, depth) + u)
  }

  /** One line of an object: indentation, key, separator, value, comma, line end. */
  function MemberText(key: Text, value: Text, more: bool, format: bool, depth: nat): Text {
    (if format then Tabs(depth) else "") + PrintString(key) + (if format then ":\t" else ":") + value
    + (if more then "," else "") + (if format then "\n" else "")
  }

  // ---------------------------------------------------------------- numbers

  predicate NumberChar(c: char) {
    IsDigit(c) || c == '+' || c == '-' || c == 'e' || c == 'E' || c == '.'
  }

  /** The run of characters parse_number copies out for strtod. */
  function NumberRun(r: Text): (n: nat)
    ensures n <= |r| && forall i :: 0 <= i < n ==> NumberChar(r[i])
    ensures n < |r| ==> !NumberChar(r[n])
  {
    if r == [] || !NumberChar(r[0]) then 0 else 1 + NumberRun(r[1..])
  }

  function DigitRun(r: Text): (n: nat)
    ensures n <= |r| && forall i :: 0 <= i < n ==> IsDigit(r[i])
    ensures n < |r| ==> !IsDigit(r[n])
  {
    if r == [] || !IsDigit(r[0]) then 0 else 1 + DigitRun(r[1..])
  }

  function Pow10(n: nat): (r: real)
    ensures r >= 1.0
  {
    if n == 0 then 1.0 else 10.0 * Pow10(n - 1)
  }

  /** The exponent part of a number: its length and its power of ten. */
  function Exponent(r: Text): (res: (nat, int))
    ensures res.0 <= |r|
  {
    if r == [] || (r[0] != 'e' && r[0] != 'E') then (0, 0)
    else
      var s := if |r| > 1 && (r[1] == '+' || r[1] == '-') then 2 else 1;
      var n := DigitRun(r[s..]);
      if n == 0 then (0, 0)
      else
        var e: int := NatOf(r[s..][..n]);
        (s + n, if r[1] == '-' then 0 - e else e)
  }

  /** The unsigned decimal before the exponent: its length, 0 if there are no digits, and its value. */
  function Mantissa(u: Text): (r: (nat, real))
    ensures r.0 <= |u|
  {
    var n := DigitRun(u);
    var whole := NatOf(u[..n]) as real;
    if n < |u| && u[n] == '.' then
      var frac := DigitRun(u[n + 1..]);
      if n + frac == 0 then (0, 0.0)
      else (n + 1 + frac, whole + NatOf(u[n + 1..][..frac]) as real / Pow10(frac))
    else (n, whole)
  }

  /** strtod on exact reals: how many characters it takes and the number they denote. */
  function Strtod(s: Text): (r: (nat, real))
    ensures r.0 <= |s|
  {
    var sign := if s != [] && (s[0] == '-' || s[0] == '+') then 1 else 0;
    var (used, m) := Mantissa(s[sign..]);
    if used == 0 then (0, 0.0)
    else
      var (len, e) := Exponent(s[sign + used..]);
      var scaled := if e >= 0 then m * Pow10(e) else m / Pow10(-e);
      (sign + used + len, if s[0] == '-' then -scaled else scaled)
  }

  // ---------------------------------------------------------------- strings

  function HexValue(c: char): Option<nat> {
    if '0' <= c <= '9' then Some(c as int - 48)
    else if 'A' <= c <= 'F' then Some(10 + c as int - 65)
    else if 'a' <= c <= 'f' then Some(10 + c as int - 97)
    else None
  }

  /** parse_hex4: four hexadecimal digits, or 0 if one of them is not. */
  function Hex4(r: Text): (h: nat)
    requires |r| >= 4
    ensures h <= 0xFFFF
  {
    var a, b, c, d := HexValue(r[0]), HexValue(r[1]), HexValue(r[2]), HexValue(r[3]);
    if a.None? || b.None? || c.None? || d.None? then 0
    else ((a.value * 16 + b.value) * 16 + c.value) * 16 + d.value
  }

  function ByteChar(n: nat): char
    requires n < 256
  {
    n as char
  }

  /** The UTF-8 bytes that utf16_literal_to_utf8 stores for a code point. */
  function Utf8(cp: nat): (r: Text)
    requires cp <= 0x10FFFF
    ensures 1 <= |r| <= 4 && (cp < 0x10000 ==> |r| <= 3)
  {
    if cp < 0x80 then [ByteChar(cp)]
    else if cp < 0x800 then [ByteChar(0xC0 + cp / 64), ByteChar(0x80 + cp % 64)]
    else if cp < 0x10000 then [ByteChar(0xE0 + cp / 4096), ByteChar(0x80 + cp / 64 % 64), ByteChar(0x80 + cp % 64)]
    else [ByteChar(0xF0 + cp / 262144), ByteChar(0x80 + cp / 4096 % 64), ByteChar(0x80 + cp / 64 % 64),
        ByteChar(0x80 + cp % 64)]
  }

  predicate HighSurrogate(u: nat) {
    0xD800 <= u <= 0xDBFF
  }

  predicate LowSurrogate(u: nat) {
    0xDC00 <= u <= 0xDFFF
  }

  /** The code point of an escape at the start of `r`, and the length of the escape, 0 on failure. */
  function Utf16Literal(r: Text, avail: int): (res: (nat, nat))
    requires avail < |r| && |r| > 0
    ensures res.1 == 0 || (res.0 <= 0x10FFFF && res.1 <= avail && (res.1 == 6 || res.1 == 12))
    ensures res.1 == 6 ==> res.0 < 0x10000
  {
    if avail < 6 then (0, 0)
    else
      var first := Hex4(r[2..]);
      if LowSurrogate(first) then (0, 0)
      else if HighSurrogate(first) then
        if avail < 12 || r[6] != '\\' || r[7] != 'u' then (0, 0)
        else
          var second := Hex4(r[8..]);
          if !LowSurrogate(second) then (0, 0)
          else (0x10000 + (first % 0x400) * 0x400 + second % 0x400, 12)
      else (first, 6)
  }

  function SimpleEscape(c: char): Option<char> {
    if c == 'b' then Some(8 as char)
    else if c == 'f' then Some(12 as char)
    else if c == 'n' then Some(10 as char)
    else if c == 'r' then Some(13 as char)
    else if c == 't' then Some(9 as char)
    else if c == '\"' || c == '\\' || c == '/' then Some(c)
    else None
  }

  /** The first scan of parse_string: where the closing quote is. */
  function ClosingQuote(r: Text): (n: Option<nat>)
    ensures n.Some? ==> n.value < |r| && r[n.value] == '\"'
  {
    if r == [] then None
    else if r[0] == '\"' then Some(0)
    else
      var step := if r[0] == '\\' then 2 else 1;
      if step > |r| then None
      else
        match ClosingQuote(r[step..])
        case None => None
        case Some(n) => Some(n + step)
  }

  /** The second scan: the bytes stored for the `n` characters before the closing quote. */
  function Unescape(r: Text, n: int): Option<Text>
    requires n < |r|
    decreases n
  {
    if n <= 0 then Some([])
    else if r[0] != '\\' then Prepend([r[0]], Unescape(r[1..], n - 1))
    else if r[1] == 'u' then
      var (cp, len) := Utf16Literal(r, n);
      if len == 0 then None else Prepend(Utf8(cp), Unescape(r[len..], n - len))
    else
      match SimpleEscape(r[1])
      case None => None
      case Some(c) => if n == 1 then Some([c]) else Prepend([c], Unescape(r[2..], n - 2))
  }

  function Prepend(a: Text, b: Option<Text>): Option<Text> {
    match b
    case None => None
    case Some(t) => Some(a + t)
  }

  /** A C string ends at its first NUL. */
  function CString(s: Text): Text {
    if s == [] || s[0] == '\0' then [] else [s[0]] + CString(s[1..])
  }

  /** parse_string: the string value and the text after the closing quote. */
  function ParseString(r: Text): (res: Option<(Text, Text)>)
    ensures res.Some? ==> |res.value.1| < |r|
  {
    if r == [] || r[0] != '\"' then None
    else
      match ClosingQuote(r[1..])
      case None => None
      case Some(n) =>
        match Unescape(r[1..], n)
        case None => None
        case Some(s) => Some((CString(s), r[n + 2..]))
  }

  // ---------------------------------------------------------------- values

  /** buffer_skip_whitespace; at the end of the buffer it steps back onto the last character. */
  function SkipWhitespace(r: Text): (s: Text)
    ensures |s| <= |r| && (r != [] ==> s != [])
  {
    if r == [] || r[0] as int > 32 || |r| == 1 then r else SkipWhitespace(r[1..])
  }

  predicate StartsWith(r: Text, lit: Text) {
    |lit| <= |r| && r[..|lit|] == lit
  }

  /** parse_value: the tree and the text after it. */
  function ParseValue(r: Text, depth: nat): (res: Option<(Json, Text)>)
    ensures res.Some? ==> |res.value.1| < |r|
    decreases |r|, 2
  {
    if StartsWith(r, "null") then Some((Null, r[4..]))
    else if StartsWith(r, "false") then Some((False, r[5..]))
    else if StartsWith(r, "true") then Some((True, r[4..]))
    else if r == [] then None
    else if r[0] == '\"' then
      (match ParseString(r)
       case None => None
       case Some((s, rest)) => Some((String(s), rest)))
    else if r[0] == '-' || IsDigit(r[0]) then
      var (n, d) := Strtod(r[..NumberRun(r)]);
      if n == 0 then None else Some((Number(d), r[n..]))
    else if r[0] == '[' then
      if depth >= NESTING_LIMIT then None
      else
        var s := SkipWhitespace(r[1..]);
        if s == [] then None
        else if s[0] == ']' then Some((Array([]), s[1..]))
        else
          (match ParseItems(s, depth + 1)
           case None => None
           case Some((items, rest)) => Some((Array(items), rest)))
    else if r[0] == '{' then
      if depth >= NESTING_LIMIT then None
      else
        var s := SkipWhitespace(r[1..]);
        if s == [] then None
        else if s[0] == '}' then Some((Object([]), s[1..]))
        else
          (match ParseMembers(s, depth + 1)
           case None => None
           case Some((ms, rest)) => Some((Object(ms), rest)))
    else None
  }

  /** The element loop of parse_array, from the start of an element to after the ']'. */
  function ParseItems(r: Text, depth: nat): (res: Option<(seq<Json>, Text)>)
    ensures res.Some? ==> |res.value.1| < |r|
    decreases |r|, 3
  {
    match ParseValue(SkipWhitespace(r), depth)
    case None => None
    case Some((v, after)) =>
      var s := SkipWhitespace(after);
      if s == [] then None
      else if s[0] == ',' then
        (match ParseItems(s[1..], depth)
         case None => None
         case Some((items, rest)) => Some(([v] + items, rest)))
      else if s[0] == ']' then Some(([v], s[1..]))
      else None
  }

  /** The member loop of parse_object, from the start of a member to after the '}'. */
  function ParseMembers(r: Text, depth: nat): (res: Option<(Members, Text)>)
    ensures res.Some? ==> |res.value.1| < |r|
    decreases |r|, 3
  {
    if r == [] then None
    else
      match ParseString(SkipWhitespace(r))
      case None => None
      case Some((key, afterKey)) =>
        var colon := SkipWhitespace(afterKey);
        if colon == [] || colon[0] != ':' then None
        else
          match ParseValue(SkipWhitespace(colon[1..]), depth)
          case None => None
          case Some((v, after)) =>
            var s := SkipWhitespace(after);
            if s == [] then None
            else if s[0] == ',' then
              (match ParseMembers(s[1..], depth)
               case None => None
               case Some((ms, rest)) => Some(([Member(key, v)] + ms, rest)))
            else if s[0] == '}' then Some(([Member(key, v)], s[1..]))
            else None
  }

  function SkipBom(content: Text): Text {
    if |content| > 4 && content[0] as int == 0xEF && content[1] as int == 0xBB && content[2] as int == 0xBF
    then content[3..] else content
  }

  /** cJSON_ParseWithOpts on a C string, whose terminating NUL belongs to the buffer. */
  function Parse(text: Text, requireNullTerminated: bool): Option<Json> {
    match ParseValue(SkipWhitespace(SkipBom(text + "\0")), 0)
    case None => None
    case Some((v, rest)) =>
      if requireNullTerminated && (SkipWhitespace(rest) == [] || SkipWhitespace(rest)[0] != '\0') then None
      else Some(v)
  }
}
