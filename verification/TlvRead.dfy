/**
  The readers of encoded items on both sides. A reader gets back exactly the values its type can hold.

  An item whose head announces more bytes than the item has does not come out of a builder; the
  firmware would read on in its buffer, here the readers give None (or 0) for it.
 */
module TlvRead {
  import opened Basics
  import opened Cbor
  import opened Tlv
  import opened TlvFind

  // ---------------------------------------------------------------- firmware

  /** ykp_tlv_read_uint8, _uint16, _uint32, _uint64, by the number of bytes of the result. */
  function ReadUint(item: Bytes, width: nat): Option<nat> {
    if item == [] || item[0] / 32 != 0 then None
    else
      var info := item[0] % 32;
      if info < 24 then Some(info)
      else if info == 0x18 && |item| >= 2 then Some(item[1])
      else if info == 0x19 && width >= 2 && |item| >= 3 then Some(FromBigEndian(item[1..3]))
      else if info == 0x1A && width >= 4 && |item| >= 5 then Some(FromBigEndian(item[1..5]))
      else if info == 0x1B && width >= 8 && |item| >= 9 then Some(FromBigEndian(item[1..9]))
      else None
  }

  /** (int32_t) n. */
  function ToInt32(n: int): (r: int)
    ensures -0x8000_0000 <= r < 0x8000_0000
  {
    var m := n % 0x1_0000_0000;
    if m < 0x8000_0000 then m else m - 0x1_0000_0000
  }

  /** The argument of a head, for a head of at most 32 bits. */
  function Argument(item: Bytes): Option<nat> {
    if item == [] then None
    else
      var info := item[0] % 32;
      if info < 24 then Some(info)
      else if info == 0x18 && |item| >= 2 then Some(item[1])
      else if info == 0x19 && |item| >= 3 then Some(FromBigEndian(item[1..3]))
      else if info == 0x1A && |item| >= 5 then Some(FromBigEndian(item[1..5]))
      else None
  }

  /** ykp_tlv_read_int32. */
  function ReadInt32(item: Bytes): Option<int> {
    if item == [] then None
    else if item[0] / 32 == 0 then
      match ReadUint(item, 4)
      case None => None
      case Some(n) => Some(ToInt32(n))
    else if item[0] / 32 == 1 then
      if item[0] % 32 > 0x1A then Some(-1)
      else
        match Argument(item)
        case None => None
        case Some(uv) => Some(ToInt32(-1 - uv))
    else None
  }

  /** The bits that the 0xF9 branch of ykp_tlv_read_float decodes. */
  function ReadHalf(item: Bytes): Option<nat> {
    if |item| >= 3 && item[0] == 0xF9 then Some(FromBigEndian(item[1..3])) else None
  }

  // ---------------------------------------------------------------- backend

  /** tlvReadUInt32 and tlvReadUInt16. */
  function TsReadUInt32(item: Bytes): nat {
    match Argument(item)
    case None => 0
    case Some(n) => n
  }

  /** tlvReadInt8. */
  function TsReadInt8(item: Bytes): int {
    if item == [] then 0
    else if item[0] / 32 == 0 then TsReadUInt32(item)
    else if item[0] / 32 == 1 then
      match Argument(item)
      case None => -1
      case Some(uv) => -1 - uv
    else 0
  }

  /** The bytes that tlvReadString decodes as UTF-8. */
  function TsReadString(item: Bytes): Bytes {
    if item == [] then []
    else
      var info := item[0] % 32;
      if info < 24 then Subarray(item, 1, 1 + info)
      else if info == 0x18 && |item| >= 2 then Subarray(item, 2, 2 + (item[1] as nat))
      else if info == 0x19 && |item| >= 3 then Subarray(item, 3, 3 + FromBigEndian(item[1..3]))
      else []
  }

  // ---------------------------------------------------------------- round trips

  lemma ArgumentOfUint(n: nat)
    requires n <= UINT64_MAX
    ensures EncodeUint(n)[0] / 32 == 0 && Argument(EncodeUint(n)) == if n <= UINT32_MAX then Some(n) else None
    ensures n > UINT32_MAX ==>
              |EncodeUint(n)| == 9 && FromBigEndian(EncodeUint(n)[1..9]) == n && EncodeUint(n)[0] == 0x1B
  {
    hide BigEndian, FromBigEndian;
    Widths();
    var e := EncodeUint(n);
    if n > UINT32_MAX {
      BigEndianRoundTrip(n, 8);
      assert e[1..9] == BigEndian(n, 8);
    } else if n > UINT16_MAX {
      BigEndianRoundTrip(n, 4);
      assert e[1..5] == BigEndian(n, 4);
    } else if n > UINT8_MAX {
      BigEndianRoundTrip(n, 2);
      assert e[1..3] == BigEndian(n, 2);
    }
  }

  /** A firmware reader gives back a number exactly if its type can hold it. */
  lemma UintRoundTrip(n: nat, width: nat)
    requires n <= UINT64_MAX && width in {1, 2, 4, 8}
    ensures ReadUint(EncodeUint(n), width) == if n < Pow256(width) then Some(n) else None
  {
    hide BigEndian, FromBigEndian;
    Widths();
    ArgumentOfUint(n);
  }

  lemma Int32RoundTrip(n: int)
    requires -0x8000_0000 <= n < 0x8000_0000
    ensures ReadInt32(EncodeItem(IntItem(n))) == Some(n)
    ensures TsReadInt8(EncodeItem(IntItem(n))) == n
  {
    hide BigEndian, FromBigEndian;
    Widths();
    if n >= 0 {
      UintRoundTrip(n, 4);
      ArgumentOfUint(n);
    } else {
      var uv, e := -1 - n, EncodeItem(IntItem(n));
      if uv > UINT16_MAX {
        BigEndianRoundTrip(uv, 4);
        assert e[1..5] == BigEndian(uv, 4);
      } else if uv > UINT8_MAX {
        BigEndianRoundTrip(uv, 2);
        assert e[1..3] == BigEndian(uv, 2);
      }
    }
  }

  lemma HalfRoundTrip(h: nat)
    requires h <= UINT16_MAX
    ensures ReadHalf(EncodeItem(Half(h))) == Some(h)
  {
    hide BigEndian, FromBigEndian;
    Widths();
    BigEndianRoundTrip(h, 2);
    assert EncodeItem(Half(h))[1..3] == BigEndian(h, 2);
  }

  /** The backend's number reader gives back what fits in 32 bits, and 0 for anything larger. */
  lemma TsUintRoundTrip(n: nat)
    requires n <= UINT64_MAX
    ensures TsReadUInt32(EncodeUint(n)) == if n <= UINT32_MAX then n else 0
  {
    ArgumentOfUint(n);
  }

  /** Strings come back whole exactly up to 255 bytes; a longer one is cut to its length modulo 256. */
  lemma StringRoundTrip(s: Bytes)
    ensures TsReadString(EncodeItem(Text(s))) == s[..if |s| <= 255 then |s| else |s| % 256]
    ensures TsReadString(EncodeItem(Text(s))) == s <==> |s| <= 255
    ensures TsReadString(EncodeItem(Blob(s))) == TsReadString(EncodeItem(Text(s)))
  {
    StringRead(0x60, s);
    StringRead(0x40, s);
    assert s[..|s|] == s;
  }

  lemma StringRead(major: Byte, s: Bytes)
    requires major == 0x40 || major == 0x60
    ensures TsReadString(EncodeBytes(major, s)) == s[..if |s| <= 255 then |s| else |s| % 256]
  {
    var e := EncodeBytes(major, s);
    if |s| < 24 {
      HeadThenBytes([major + |s|], s, |s|);
    } else {
      HeadThenBytes([major + 0x18, |s| % 256], s, |s| % 256);
      assert e[0] % 32 == 0x18 && e[1] == |s| % 256;
    }
  }

  lemma HeadThenBytes(head: Bytes, s: Bytes, n: nat)
    requires n <= |s|
    ensures Subarray(head + s, |head|, |head| + n) == s[..n]
  {
  }

  /** From either builder to the other side: what is found for a key is the encoding of what was first added for it. */
  lemma AcrossTheWire(ps: seq<Pair>, key: Byte)
    requires AllEncodable(ps) && |EncodeMap(ps)| <= UINT16_MAX && FirstItem(ps, key).Some?
    ensures var payload, v, r := EncodeMap(ps), FirstItem(ps, key).value, FindTlv(EncodeMap(ps), key);
            && r.Found? && r.start <= r.end <= |payload|
            && Entries(payload).Some? && FirstEntry(Entries(payload).value, key) == Some(payload[r.start..r.end])
            && (v.Uint? ==>
                  (forall w :: w in {1, 2, 4, 8} ==>
                     ReadUint(payload[r.start..r.end], w) == if v.n < Pow256(w) then Some(v.n) else None)
                  && TsReadUInt32(payload[r.start..r.end]) == if v.n <= UINT32_MAX then v.n else 0)
            && (v.Text? || v.Blob? ==> TsReadString(payload[r.start..r.end]) == v.bytes)
            && (v.Half? ==> ReadHalf(payload[r.start..r.end]) == Some(v.bits))
            && (v.Nint? ==>
                  ReadInt32(payload[r.start..r.end]) == Some(-1 - v.n) &&
                      TsReadInt8(payload[r.start..r.end]) == -1 - v.n)
  {
    hide ReadInt32, TsReadInt8, ReadUint, TsReadUInt32, TsReadString, ReadHalf, FindTlv, Entries, EncodeMap, EncodeItem;
    FindsFirst(ps, key);
    ParsesAll(ps, key);
    var v := FirstItem(ps, key).value;
    match v
    case Uint(n) =>
      UintItem(n);
      TsUintRoundTrip(n);
      forall w | w in {1, 2, 4, 8} ensures ReadUint(EncodeUint(n), w) == if n < Pow256(w) then Some(n) else None {
        UintRoundTrip(n, w);
      }
    case Text(s) => StringRoundTrip(s);
    case Blob(s) => StringRoundTrip(s);
    case Half(h) => HalfRoundTrip(h);
    case Nint(n) =>
      assert IntItem(-1 - n) == v;
      Int32RoundTrip(-1 - n);
  }

  lemma UintItem(n: nat)
    ensures EncodeItem(Uint(n)) == EncodeUint(n)
  {
  }
}
