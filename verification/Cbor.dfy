/**
  The CBOR subset both sides use for payloads: an indefinite map with byte keys, and items that are
  unsigned or negative integers, strings, byte strings or half-precision floats.
 */
module Cbor {
  import opened Basics

  datatype Item =
    | Uint(n: nat)          // below 2^64
    | Nint(n: nat)          // -1 - n, for n below 2^31
    | Text(bytes: Bytes)
    | Blob(bytes: Bytes)
    | Half(bits: nat)       // below 2^16

  datatype Pair = Pair(key: Byte, item: Item)

  const UINT8_MAX: nat := 0xFF
  const UINT16_MAX: nat := 0xFFFF
  const UINT64_MAX: nat := 0xFFFF_FFFF_FFFF_FFFF

  // ---------------------------------------------------------------- big-endian numbers

  /** The low `width` bytes of a number, most significant first. */
  function BigEndian(n: nat, width: nat): (r: Bytes)
    ensures |r| == width
  {
    if width == 0 then [] else BigEndian(n / 256, width - 1) + [n % 256]
  }

  function FromBigEndian(s: Bytes): nat {
    if s == [] then 0 else 256 * FromBigEndian(s[..|s| - 1]) + s[|s| - 1]
  }

  function Pow256(n: nat): (p: nat)
    ensures p >= 1
  {
    if n == 0 then 1 else 256 * Pow256(n - 1)
  }

  lemma {:induction false} BigEndianRoundTrip(n: nat, width: nat)
    requires n < Pow256(width)
    ensures FromBigEndian(BigEndian(n, width)) == n
  {
    if width > 0 {
      BigEndianRoundTrip(n / 256, width - 1);
      assert BigEndian(n, width)[..width - 1] == BigEndian(n / 256, width - 1);
    }
  }

  lemma {:induction false} FromBigEndianBelow(s: Bytes)
    ensures FromBigEndian(s) < Pow256(|s|)
  {
    if s != [] {
      FromBigEndianBelow(s[..|s| - 1]);
    }
  }

  lemma Widths()
    ensures Pow256(1) == 0x100 && Pow256(2) == 0x1_0000 && Pow256(4) == 0x1_0000_0000 &&
            Pow256(8) == 0x1_0000_0000_0000_0000
  {
    assert Pow256(2) == 0x1_0000 && Pow256(4) == 0x1_0000_0000;
  }

  // ---------------------------------------------------------------- encoding

  /** Whether the number fits the type the item stands for, and a string the one-byte length. */
  predicate Encodable(v: Item) {
    match v
    case Uint(n) => n <= UINT64_MAX
    case Nint(n) => n <= 0x7FFF_FFFF
    case Text(s) => |s| <= 255
    case Blob(s) => |s| <= 255
    case Half(h) => h <= UINT16_MAX
  }

  function EncodeKey(key: Byte): Bytes {
    if key < 24 then [key] else [0x18, key]
  }

  function EncodeUint(n: nat): (r: Bytes)
    ensures r != []
  {
    if n < 24 then [n]
    else if n <= UINT8_MAX then [0x18, n]
    else if n <= UINT16_MAX then [0x19] + BigEndian(n, 2)
    else if n <= UINT32_MAX then [0x1A] + BigEndian(n, 4)
    else [0x1B] + BigEndian(n, 8)
  }

  /** The head of a string or byte string, which keeps only the low byte of a length. */
  function StringHead(major: Byte, length: nat): (r: Bytes)
    requires major <= 224
    ensures r != []
  {
    if length < 24 then [major + length] else [major + 0x18, length % 256]
  }

  function EncodeBytes(major: Byte, s: Bytes): (r: Bytes)
    requires major <= 224
    ensures r != []
  {
    StringHead(major, |s|) + s
  }

  function EncodeItem(v: Item): (r: Bytes)
    ensures r != []
  {
    match v
    case Uint(n) => EncodeUint(n)
    case Nint(n) =>
      if n < 24 then [0x20 + n]
      else if n <= UINT8_MAX then [0x38, n]
      else if n <= UINT16_MAX then [0x39] + BigEndian(n, 2)
      else [0x3A] + BigEndian(n, 4)
    case Text(s) => EncodeBytes(0x60, s)
    case Blob(s) => EncodeBytes(0x40, s)
    case Half(h) => [0xF9] + BigEndian(h, 2)
  }

  function EncodePair(p: Pair): (r: Bytes)
    ensures |r| >= 2
  {
    EncodeKey(p.key) + EncodeItem(p.item)
  }

  function EncodePairs(ps: seq<Pair>): Bytes {
    if ps == [] then [] else EncodePairs(ps[..|ps| - 1]) + EncodePair(ps[|ps| - 1])
  }

  /** The whole payload. */
  function EncodeMap(ps: seq<Pair>): Bytes {
    [0xBF] + EncodePairs(ps) + [0xFF]
  }

  lemma {:induction false} EncodePairsFront(ps: seq<Pair>)
    requires ps != []
    ensures EncodePairs(ps) == EncodePair(ps[0]) + EncodePairs(ps[1..])
  {
    hide EncodePair;
    if |ps| == 1 {
      assert ps[..0] == [] && ps[1..] == [];
      assert EncodePair(ps[0]) + [] == [] + EncodePair(ps[0]);
    } else {
      var front, back, last := ps[..|ps| - 1], ps[1..], ps[|ps| - 1];
      EncodePairsFront(front);
      assert front[1..] == back[..|back| - 1] && back[|back| - 1] == last && front[0] == ps[0];
      assert EncodePairs(back) == EncodePairs(front[1..]) + EncodePair(last);
      assert EncodePair(ps[0]) + EncodePairs(front[1..]) + EncodePair(last)
          == EncodePair(ps[0]) + (EncodePairs(front[1..]) + EncodePair(last));
    }
  }

  predicate AllEncodable(ps: seq<Pair>) {
    forall i :: 0 <= i < |ps| ==> Encodable(ps[i].item)
  }

  // ---------------------------------------------------------------- walking over an item

  /** Where the item at `i` ends by its head; None if the head itself is outside the buffer. */
  function ItemEnd(buf: Bytes, i: nat): (r: Option<nat>)
    ensures r.Some? ==> r.value > i
  {
    if i >= |buf| then None
    else
      var major, info := buf[i] / 32, buf[i] % 32;
      if major == 0 || major == 1 then
        Some(i + 1 + if info == 0x18 then 1 else if info == 0x19 then 2
                     else if info == 0x1A then 4 else if info == 0x1B then 8 else 0)
      else if major == 2 || major == 3 then
        if info < 24 then Some(i + 1 + info)
        else if info == 0x18 then
          if i + 1 >= |buf| then None else Some(i + 2 + buf[i + 1])
        else if info == 0x19 then
          if i + 2 >= |buf| then None else Some(i + 3 + FromBigEndian(buf[i + 1..i + 3]))
        else Some(i + 1)
      else if major == 7 then
        Some(i + 1 + if info == 25 then 2 else if info == 26 then 4 else if info == 27 then 8 else 0)
      else Some(i + 1)
  }

  /** An encoded item ends where it ends, wherever it stands. */
  lemma ItemEndOfEncoded(pre: Bytes, v: Item, rest: Bytes)
    requires Encodable(v)
    ensures ItemEnd(pre + EncodeItem(v) + rest, |pre|) == Some(|pre| + |EncodeItem(v)|)
  {
    var buf, e := pre + EncodeItem(v) + rest, EncodeItem(v);
    assert buf[|pre|] == e[0];
    assert |e| > 1 ==> buf[|pre| + 1] == e[1];
  }
}
