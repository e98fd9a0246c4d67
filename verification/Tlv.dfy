/**
  Payload maps as the firmware builds and reads them, in fixed buffers, and as the backend does,
  with a list of chunks and a list of entries.
 */
module Tlv {
  import opened Basics
  import opened Cbor

  // ---------------------------------------------------------------- firmware builder

  /** ykp_tlv_builder_t with the cbor_encoder_t that each add works on. */
  class Builder {
    const buf: array<Byte>
    var len: nat
    var overflow: bool

    ghost predicate Valid()
      reads this
    {
      len <= buf.Length
    }

    ghost function Written(): Bytes
      requires Valid()
      reads this, buf
    {
      buf[..len]
    }

    /** Nothing already in the buffer changes, and `s` is appended if it fits. */
    twostate predicate Appended(s: Bytes)
      requires old(Valid())
      reads this, buf
    {
      && Valid() && len >= old(len) && buf[..old(len)] == old(Written())
      && overflow == (old(overflow) || old(len) + |s| > buf.Length)
      && (!overflow ==> Written() == old(Written()) + s)
    }

    /** ykp_tlv_builder_init. */
    constructor (buf: array<Byte>)
      requires buf.Length > 0
      modifies buf
      ensures Valid() && this.buf == buf && Written() == [0xBF]
    {
      this.buf, len, overflow := buf, 1, false;
      new;
      buf[0] := 0xBF;
    }

    /** cbor_write_byte. */
    method WriteByte(b: Byte)
      requires Valid()
      modifies this, buf
      ensures Appended([b])
    {
      if len < buf.Length {
        buf[len] := b;
        len := len + 1;
      } else {
        overflow := true;
      }
    }

    /** cbor_write_bytes. */
    method WriteBytes(data: Bytes)
      requires Valid()
      modifies this, buf
      ensures Appended(data)
    {
      if len + |data| <= buf.Length {
        var i: nat := 0;
        while i < |data|
          invariant i <= |data| && len == old(len) && overflow == old(overflow)
          invariant buf[..len + i] == old(Written()) + data[..i]
        {
          buf[len + i] := data[i];
          i := i + 1;
        }
        len := len + |data|;
      } else {
        overflow := true;
      }
    }

    /** cbor_encode_key. */
    method WriteKey(key: Byte)
      requires Valid()
      modifies this, buf
      ensures Appended(EncodeKey(key))
    {
      if key < 24 {
        WriteByte(key);
      } else {
        WriteByte(0x18);
        WriteByte(key);
      }
    }

    /** The bytes of a number, written from the most significant one down. */
    method WriteBigEndian(n: nat, width: nat)
      requires Valid()
      modifies this, buf
      ensures Appended(BigEndian(n, width))
    {
      if width > 0 {
        WriteBigEndian(n / 256, width - 1);
        WriteByte(n % 256);
      }
    }

    /** cbor_encode_uint. */
    method WriteUint(n: nat)
      requires Valid()
      modifies this, buf
      ensures Appended(EncodeUint(n))
    {
      hide BigEndian;
      if n < 24 {
        WriteByte(n);
      } else if n <= UINT8_MAX {
        WriteByte(0x18);
        WriteByte(n);
      } else {
        var width := if n <= UINT16_MAX then 2 else if n <= UINT32_MAX then 4 else 8;
        WriteByte(if width == 2 then 0x19 else if width == 4 then 0x1A else 0x1B);
        WriteBigEndian(n, width);
      }
    }

    /** cbor_encode_str and cbor_encode_bytes. */
    method WriteString(major: Byte, s: Bytes)
      requires Valid() && major <= 224
      modifies this, buf
      ensures Appended(EncodeBytes(major, s))
    {
      WriteHead(major, |s|);
      WriteBytes(s);
      ghost var head := StringHead(major, |s|);
      assert old(Written()) + head + s == old(Written()) + (head + s);
    }

    /** The head of a string or byte string. */
    method WriteHead(major: Byte, length: nat)
      requires Valid() && major <= 224
      modifies this, buf
      ensures Appended(StringHead(major, length))
    {
      if length < 24 {
        WriteByte(major + length);
      } else {
        WriteByte(major + 0x18);
        WriteByte(length % 256);
      }
    }

    /** One `add` call: `ok` tells whether everything fitted. */
    twostate predicate Added(p: Pair, ok: bool)
      requires old(Valid())
      reads this, buf
    {
      && Valid() && buf[..old(len)] == old(Written()) && len >= old(len)
      && ok == (old(len) + |EncodePair(p)| <= buf.Length)
      && (ok ==> Written() == old(Written()) + EncodePair(p))
    }

    /** ykp_tlv_add_uint8, _uint16, _uint32 and _uint64. */
    method AddUint(key: Byte, n: nat) returns (ok: bool)
      requires Valid() && n <= UINT64_MAX
      modifies this, buf
      ensures Added(Pair(key, Uint(n)), ok)
    {
      hide EncodeUint, EncodeKey;
      overflow := false;
      WriteKey(key);
      WriteUint(n);
      ok := !overflow;
      assert old(Written()) + EncodeKey(key) + EncodeUint(n) == old(Written()) + (EncodeKey(key) + EncodeUint(n));
    }

    /** cbor_encode_int. */
    method WriteInt(n: int)
      requires Valid() && -0x8000_0000 <= n < 0x8000_0000
      modifies this, buf
      ensures Appended(EncodeItem(IntItem(n)))
    {
      hide EncodeUint, BigEndian;
      if n >= 0 {
        WriteUint(n);
        return;
      }
      WriteNegative(-1 - n);
    }

    /** The branch of cbor_encode_int for -1 - uv. */
    method WriteNegative(uv: nat)
      requires Valid() && uv <= 0x7FFF_FFFF
      modifies this, buf
      ensures Appended(EncodeItem(Nint(uv)))
    {
      hide BigEndian;
      ghost var before := Written();
      if uv < 24 {
        WriteByte(0x20 + uv);
      } else if uv <= UINT8_MAX {
        WriteByte(0x38);
        WriteByte(uv);
        assert before + [0x38] + [uv] == before + [0x38, uv];
      } else {
        var width := if uv <= UINT16_MAX then 2 else 4;
        var head: Byte := if width == 2 then 0x39 else 0x3A;
        WriteByte(head);
        WriteBigEndian(uv, width);
        assert before + [head] + BigEndian(uv, width) == before + ([head] + BigEndian(uv, width));
      }
    }

    /** ykp_tlv_add_int32. */
    method AddInt32(key: Byte, n: int) returns (ok: bool)
      requires Valid() && -0x8000_0000 <= n < 0x8000_0000
      modifies this, buf
      ensures Added(Pair(key, IntItem(n)), ok)
    {
      hide EncodeItem, EncodeKey;
      overflow := false;
      WriteKey(key);
      WriteInt(n);
      ok := !overflow;
      assert old(Written()) + EncodeKey(key) + EncodeItem(IntItem(n)) ==
          old(Written()) + (EncodeKey(key) + EncodeItem(IntItem(n)));
    }

    /** cbor_encode_float16, from the bits of the half. */
    method WriteHalf(bits: nat)
      requires Valid()
      modifies this, buf
      ensures Appended([0xF9] + BigEndian(bits, 2))
    {
      hide BigEndian;
      WriteByte(0xF9);
      WriteBigEndian(bits, 2);
      assert old(Written()) + [0xF9] + BigEndian(bits, 2) == old(Written()) + ([0xF9] + BigEndian(bits, 2));
    }

    /** ykp_tlv_add_float, from the bits that float32_to_float16 yields. */
    method AddHalf(key: Byte, bits: nat) returns (ok: bool)
      requires Valid() && bits <= UINT16_MAX
      modifies this, buf
      ensures Added(Pair(key, Half(bits)), ok)
    {
      hide EncodeKey, BigEndian;
      overflow := false;
      WriteKey(key);
      WriteHalf(bits);
      ok := !overflow;
      ghost var e := [0xF9] + BigEndian(bits, 2);
      assert old(Written()) + EncodeKey(key) + e == old(Written()) + (EncodeKey(key) + e);
    }

    /** ykp_tlv_add_string and ykp_tlv_add_bytes. */
    method AddString(key: Byte, s: Bytes, text: bool) returns (ok: bool)
      requires Valid()
      modifies this, buf
      ensures Added(Pair(key, if text then Text(s) else Blob(s)), ok)
    {
      hide EncodeKey, EncodeBytes;
      overflow := false;
      WriteKey(key);
      WriteString(if text then 0x60 else 0x40, s);
      ok := !overflow;
      ghost var e := EncodeBytes(if text then 0x60 else 0x40, s);
      assert old(Written()) + EncodeKey(key) + e == old(Written()) + (EncodeKey(key) + e);
    }

    /** ykp_tlv_builder_len: the break byte goes at the end, or over the last byte of a full buffer. */
    method Finish() returns (n: nat)
      requires Valid() && buf.Length > 0
      modifies buf
      ensures n <= buf.Length
      ensures buf[..n] == (if len < buf.Length then old(Written()) else old(Written())[..len - 1]) + [0xFF]
    {
      if len < buf.Length {
        buf[len] := 0xFF;
        return len + 1;
      }
      buf[buf.Length - 1] := 0xFF;
      n := buf.Length;
    }
  }

  function IntItem(n: int): (v: Item)
    requires -0x8000_0000 <= n < 0x8000_0000
    ensures Encodable(v)
  {
    if n >= 0 then Uint(n) else Nint(-1 - n)
  }

  // ---------------------------------------------------------------- backend builder

  function Joined(chunks: seq<Bytes>): Bytes {
    if chunks == [] then [] else Joined(chunks[..|chunks| - 1]) + chunks[|chunks| - 1]
  }

  lemma JoinedMore(chunks: seq<Bytes>, c: Bytes)
    ensures Joined(chunks + [c]) == Joined(chunks) + c
  {
    assert (chunks + [c])[..|chunks|] == chunks;
  }

  /** What addUInt8 pushes for a value. */
  function Uint8Chunk(n: nat): Bytes {
    if n < 24 then [n] else [0x18, n % 256]
  }

  /** addUInt16; None where writeUInt16BE throws. */
  function Uint16Chunk(n: nat): Option<Bytes> {
    if n < 24 then Some([n])
    else if n <= UINT8_MAX then Some([0x18, n])
    else if n <= UINT16_MAX then Some([0x19] + BigEndian(n, 2))
    else None
  }

  /** addUInt32; None where writeUInt32BE throws. */
  function Uint32Chunk(n: nat): Option<Bytes> {
    if n < 24 then Some([n])
    else if n <= UINT8_MAX then Some([0x18, n])
    else if n <= UINT16_MAX then Some([0x19] + BigEndian(n, 2))
    else if n <= UINT32_MAX then Some([0x1A] + BigEndian(n, 4))
    else None
  }

  /** addBigInt; None where writeBigUInt64BE throws. */
  function BigIntChunk(n: nat): Option<Bytes> {
    if n <= UINT64_MAX then Some([0x1B] + BigEndian(n, 8)) else None
  }

  /**
    The backend's unsigned adds write what the firmware writes exactly for the values of their
    width; addBigInt only above 32 bits.
   */
  lemma SameUnsignedBytes(n: nat)
    ensures Uint8Chunk(n) == EncodeUint(n) <==> n <= UINT8_MAX
    ensures Uint16Chunk(n) == Some(EncodeUint(n)) <==> n <= UINT16_MAX
    ensures Uint32Chunk(n) == Some(EncodeUint(n)) <==> n <= UINT32_MAX
    ensures BigIntChunk(n) == Some(EncodeUint(n)) <==> UINT32_MAX < n <= UINT64_MAX
  {
  }

  class TlvBuilder {
    var chunks: seq<Bytes>

    constructor ()
      ensures Joined(chunks) == [0xBF]
    {
      chunks := [[0xBF]];
      new;
      JoinedMore([], [0xBF]);
      assert [] + [[0xBF]] == [[0xBF]];
    }

    method Push(c: Bytes)
      modifies this
      ensures Joined(chunks) == old(Joined(chunks)) + c
    {
      JoinedMore(chunks, c);
      chunks := chunks + [c];
    }

    /** addKey. */
    method AddKey(key: Byte)
      modifies this
      ensures Joined(chunks) == old(Joined(chunks)) + EncodeKey(key)
    {
      if key < 24 {
        Push([key]);
      } else {
        Push([0x18, key]);
      }
    }

    /** addUInt8. */
    method AddUInt8(key: Byte, n: nat)
      modifies this
      ensures Joined(chunks) == old(Joined(chunks)) + EncodeKey(key) + Uint8Chunk(n)
    {
      AddKey(key);
      if n < 24 {
        Push([n]);
      } else {
        Push([0x18, n % 256]);
      }
    }

    /** addUInt16, addUInt32 and addBigInt; not ok where they throw. */
    method AddWide(key: Byte, n: nat, width: nat) returns (ok: bool)
      requires width == 2 || width == 4 || width == 8
      modifies this
      ensures ok == (n < Pow256(width))
      ensures ok ==> Joined(chunks) == old(Joined(chunks)) + EncodeKey(key)
                     + (if width == 2 then Uint16Chunk(n) else if width == 4 then Uint32Chunk(n)
                         else BigIntChunk(n)).value
    {
      hide BigEndian;
      assert Pow256(2) == 0x1_0000 && Pow256(4) == 0x1_0000_0000 && Pow256(8) == 0x1_0000_0000_0000_0000;
      AddKey(key);
      ok := true;
      if width < 8 && n < 24 {
        Push([n]);
      } else if width < 8 && n <= UINT8_MAX {
        Push([0x18, n]);
      } else if width < 8 && n <= UINT16_MAX {
        Push([0x19] + BigEndian(n, 2));
      } else if width == 4 && n <= UINT32_MAX {
        Push([0x1A] + BigEndian(n, 4));
      } else if width == 8 && n <= UINT64_MAX {
        Push([0x1B] + BigEndian(n, 8));
      } else {
        ok := false;
      }
    }

    /** addString, given the UTF-8 bytes of its text, and addBytes. */
    method AddString(key: Byte, s: Bytes, text: bool)
      modifies this
      ensures Joined(chunks) == old(Joined(chunks)) + EncodePair(Pair(key, if text then Text(s) else Blob(s)))
    {
      hide EncodeKey;
      AddKey(key);
      var major: Byte := if text then 0x60 else 0x40;
      ghost var e := EncodeBytes(major, s);
      if |s| < 24 {
        Push([major + |s|] + s);
      } else {
        Push([major + 0x18, |s| % 256] + s);
      }
      assert old(Joined(chunks)) + EncodeKey(key) + e == old(Joined(chunks)) + (EncodeKey(key) + e);
    }

    /** addFloat, from the bits that float32ToFloat16 yields. */
    method AddHalf(key: Byte, bits: nat)
      requires bits <= UINT16_MAX
      modifies this
      ensures Joined(chunks) == old(Joined(chunks)) + EncodePair(Pair(key, Half(bits)))
    {
      hide EncodeKey, BigEndian;
      AddKey(key);
      Push([0xF9] + BigEndian(bits, 2));
      ghost var e := [0xF9] + BigEndian(bits, 2);
      assert old(Joined(chunks)) + EncodeKey(key) + e == old(Joined(chunks)) + (EncodeKey(key) + e);
    }

    /** build. */
    method Build() returns (payload: Bytes)
      modifies this
      ensures payload == old(Joined(chunks)) + [0xFF]
    {
      Push([0xFF]);
      payload := Joined(chunks);
    }
  }

  // ---------------------------------------------------------------- whole payloads

  lemma EncodePairsMore(ps: seq<Pair>, i: nat)
    requires i < |ps|
    ensures EncodePairs(ps[..i + 1]) == EncodePairs(ps[..i]) + EncodePair(ps[i])
  {
    assert ps[..i + 1][..i] == ps[..i];
  }

  lemma {:induction false} EncodePairsGrow(ps: seq<Pair>, i: nat)
    requires i <= |ps|
    ensures |EncodePairs(ps[..i])| <= |EncodePairs(ps)|
    decreases |ps| - i
  {
    if i == |ps| {
      assert ps[..i] == ps;
    } else {
      EncodePairsMore(ps, i);
      EncodePairsGrow(ps, i + 1);
    }
  }

  /** The adds for a list of pairs into a buffer, as the firmware's services make them. */
  method BuildInFirmware(ps: seq<Pair>, buf: array<Byte>) returns (ok: bool, n: nat)
    requires AllEncodable(ps) && buf.Length > 0
    modifies buf
    ensures ok == (1 + |EncodePairs(ps)| <= buf.Length)
    ensures ok && |EncodeMap(ps)| <= buf.Length ==> n == |EncodeMap(ps)| && buf[..n] == EncodeMap(ps)
  {
    hide EncodePair, Encodable, EncodePairs;
    var b := new Builder(buf);
    var i := 0;
    NothingEncoded(ps);
    while i < |ps|
      invariant 0 <= i <= |ps| && fresh(b) && b.buf == buf && b.Valid()
      invariant b.Written() == [0xBF] + EncodePairs(ps[..i])
    {
      EncodePairsMore(ps, i);
      EncodePairsGrow(ps, i + 1);
      ghost var before := EncodePairs(ps[..i]);
      ok := AddPair(b, ps[i]);
      if !ok {
        n := 0;
        return;
      }
      assert [0xBF] + before + EncodePair(ps[i]) == [0xBF] + (before + EncodePair(ps[i]));
      i := i + 1;
    }
    assert ps[..|ps|] == ps;
    n := b.Finish();
    ok := true;
  }

  lemma NothingEncoded(ps: seq<Pair>)
    ensures EncodePairs(ps[..0]) == []
  {
  }

  /** The add call that fits an item. */
  method AddPair(b: Builder, p: Pair) returns (ok: bool)
    requires b.Valid() && Encodable(p.item)
    modifies b, b.buf
    ensures b.Valid() && ok == (old(b.len) + |EncodePair(p)| <= b.buf.Length)
    ensures ok ==> b.Written() == old(b.Written()) + EncodePair(p)
  {
    hide EncodePair;
    match p.item
    case Uint(n) => ok := b.AddUint(p.key, n);
    case Nint(n) => ok := b.AddInt32(p.key, -1 - n);
    case Text(s) => ok := b.AddString(p.key, s, true);
    case Blob(s) => ok := b.AddString(p.key, s, false);
    case Half(h) => ok := b.AddHalf(p.key, h);
  }

  /** The adds of the backend's builder, each with its argument. */
  datatype Add =
    | Add8(n: nat)
    | Add16(n: nat)
    | Add32(n: nat)
    | AddBig(n: nat)
    | AddText(bytes: Bytes)
    | AddBlob(bytes: Bytes)
    | AddHalf(bits: Half16)

  type Half16 = h: nat | h <= UINT16_MAX

  datatype Call = Call(key: Byte, add: Add)

  /** What one add pushes behind its key; None where it throws. */
  function Chunk(a: Add): (r: Option<Bytes>)
    ensures r.Some? ==> r.value != []
  {
    match a
    case Add8(n) => Some(Uint8Chunk(n))
    case Add16(n) => Uint16Chunk(n)
    case Add32(n) => Uint32Chunk(n)
    case AddBig(n) => BigIntChunk(n)
    case AddText(s) => Some(EncodeBytes(0x60, s))
    case AddBlob(s) => Some(EncodeBytes(0x40, s))
    case AddHalf(h) => Some([0xF9] + BigEndian(h, 2))
  }

  /** The value that an add is given. */
  function ItemOf(a: Add): Item {
    match a
    case Add8(n) => Uint(n)
    case Add16(n) => Uint(n)
    case Add32(n) => Uint(n)
    case AddBig(n) => Uint(n)
    case AddText(s) => Text(s)
    case AddBlob(s) => Blob(s)
    case AddHalf(h) => Half(h)
  }

  /** The add is given a number of its width, addBigInt one of more than 32 bits. */
  predicate Suits(a: Add) {
    match a
    case Add8(n) => n <= UINT8_MAX
    case Add16(n) => n <= UINT16_MAX
    case Add32(n) => n <= UINT32_MAX
    case AddBig(n) => UINT32_MAX < n <= UINT64_MAX
    case _ => true
  }

  function PairOf(c: Call): Pair {
    Pair(c.key, ItemOf(c.add))
  }

  function PairsOf(cs: seq<Call>): (ps: seq<Pair>)
    ensures |ps| == |cs| && forall i :: 0 <= i < |cs| ==> ps[i] == PairOf(cs[i])
  {
    seq(|cs|, i requires 0 <= i < |cs| => PairOf(cs[i]))
  }

  /** What a run of adds pushes; None if one of them throws. */
  function Pushed(cs: seq<Call>): Option<Bytes> {
    if cs == [] then Some([])
    else
      var last := cs[|cs| - 1];
      match (Pushed(cs[..|cs| - 1]), Chunk(last.add))
      case (Some(before), Some(c)) => Some(before + (EncodeKey(last.key) + c))
      case _ => None
  }

  /** One add call; not ok where it throws. */
  method MakeCall(b: TlvBuilder, c: Call) returns (ok: bool)
    modifies b
    ensures ok == Chunk(c.add).Some?
    ensures ok ==> Joined(b.chunks) == old(Joined(b.chunks)) + (EncodeKey(c.key) + Chunk(c.add).value)
  {
    hide EncodeKey, BigEndian, EncodeBytes;
    assert Pow256(2) == 0x1_0000 && Pow256(4) == 0x1_0000_0000 && Pow256(8) == 0x1_0000_0000_0000_0000;
    ok := true;
    match c.add {
      case Add8(n) => b.AddUInt8(c.key, n);
      case Add16(n) => ok := b.AddWide(c.key, n, 2);
      case Add32(n) => ok := b.AddWide(c.key, n, 4);
      case AddBig(n) => ok := b.AddWide(c.key, n, 8);
      case AddText(s) => b.AddString(c.key, s, true);
      case AddBlob(s) => b.AddString(c.key, s, false);
      case AddHalf(h) => b.AddHalf(c.key, h);
    }
    assert ok ==> old(Joined(b.chunks)) + EncodeKey(c.key) + Chunk(c.add).value ==
                  old(Joined(b.chunks)) + (EncodeKey(c.key) + Chunk(c.add).value);
  }

  lemma PushedMore(cs: seq<Call>, i: nat)
    requires i < |cs|
    ensures Pushed(cs[..i + 1]) ==
            match (Pushed(cs[..i]), Chunk(cs[i].add))
            case (Some(before), Some(c)) => Some(before + (EncodeKey(cs[i].key) + c))
            case _ => None
  {
    assert cs[..i + 1][..i] == cs[..i];
  }

  lemma {:induction false} PushedThrows(cs: seq<Call>, i: nat)
    requires i <= |cs| && Pushed(cs[..i]) == None
    ensures Pushed(cs) == None
    decreases |cs| - i
  {
    if i == |cs| {
      assert cs[..i] == cs;
    } else {
      PushedMore(cs, i);
      PushedThrows(cs, i + 1);
    }
  }

  /** A payload built by any adds of the backend; None if one of them throws. */
  method BuildInBackend(cs: seq<Call>) returns (payload: Option<Bytes>)
    ensures payload == match Pushed(cs) { case None => None case Some(s) => Some([0xBF] + s + [0xFF]) }
  {
    hide Chunk, Pushed;
    var b := new TlvBuilder();
    var i := 0;
    NothingPushed(cs);
    while i < |cs|
      invariant 0 <= i <= |cs| && fresh(b)
      invariant Pushed(cs[..i]).Some? && Joined(b.chunks) == [0xBF] + Pushed(cs[..i]).value
    {
      PushedMore(cs, i);
      ghost var before := Pushed(cs[..i]).value;
      var ok := MakeCall(b, cs[i]);
      if !ok {
        PushedThrows(cs, i + 1);
        return None;
      }
      ghost var c := EncodeKey(cs[i].key) + Chunk(cs[i].add).value;
      assert [0xBF] + before + c == [0xBF] + (before + c);
      i := i + 1;
    }
    assert cs[..|cs|] == cs;
    var built := b.Build();
    payload := Some(built);
  }

  lemma NothingPushed(cs: seq<Call>)
    ensures Pushed(cs[..0]) == Some([])
  {
  }

  /** The two texts differ at a place that both have. */
  ghost predicate Diverge(a: Bytes, b: Bytes) {
    exists k :: 0 <= k < |a| && k < |b| && a[k] != b[k]
  }

  lemma DivergeFurther(a: Bytes, b: Bytes, x: Bytes, y: Bytes)
    requires Diverge(a, b)
    ensures Diverge(a + x, b + y)
  {
    var k :| 0 <= k < |a| && k < |b| && a[k] != b[k];
    assert (a + x)[k] == a[k] && (b + y)[k] == b[k];
  }

  /** An add in another width than its value needs pushes another head. */
  lemma ChunkExactly(a: Add)
    ensures Suits(a) ==> Chunk(a) == Some(EncodeItem(ItemOf(a)))
    ensures !Suits(a) && Chunk(a).Some? ==> Chunk(a).value[0] != EncodeItem(ItemOf(a))[0]
  {
    hide BigEndian, EncodeBytes;
    match a
    case Add8(n) => SameUnsignedBytes(n);
    case Add16(n) => SameUnsignedBytes(n);
    case Add32(n) => SameUnsignedBytes(n);
    case AddBig(n) => SameUnsignedBytes(n);
    case _ =>
  }

  lemma {:induction false} PushedExactly(cs: seq<Call>)
    ensures (forall i :: 0 <= i < |cs| ==> Suits(cs[i].add)) ==> Pushed(cs) == Some(EncodePairs(PairsOf(cs)))
    ensures !(forall i :: 0 <= i < |cs| ==> Suits(cs[i].add)) && Pushed(cs).Some? ==>
              Diverge(Pushed(cs).value, EncodePairs(PairsOf(cs)))
    decreases |cs|
  {
    hide Chunk, EncodeItem, EncodeKey, Suits, Diverge;
    if cs != [] {
      var front, last := cs[..|cs| - 1], cs[|cs| - 1];
      PushedExactly(front);
      ChunkExactly(last.add);
      assert PairsOf(cs)[..|cs| - 1] == PairsOf(front);
      var k, e := EncodeKey(last.key), EncodeItem(ItemOf(last.add));
      assert EncodePairs(PairsOf(cs)) == EncodePairs(PairsOf(front)) + (k + e);
      if Pushed(cs).Some? {
        var before, c := Pushed(front).value, Chunk(last.add).value;
        if !(forall i :: 0 <= i < |front| ==> Suits(front[i].add)) {
          DivergeFurther(before, EncodePairs(PairsOf(front)), k + c, k + e);
          assert !(forall i :: 0 <= i < |cs| ==> Suits(cs[i].add)) by {
            var i :| 0 <= i < |front| && !Suits(front[i].add);
            assert cs[i] == front[i];
          }
        } else if !Suits(last.add) {
          HeadsDiverge(before, k, c, e);
        }
      }
      assert forall i :: 0 <= i < |cs| ==> cs[i] == if i < |front| then front[i] else last;
    }
  }

  lemma HeadsDiverge(before: Bytes, k: Bytes, c: Bytes, e: Bytes)
    requires c != [] && e != [] && c[0] != e[0]
    ensures Diverge(before + (k + c), before + (k + e))
  {
    var i := |before| + |k|;
    assert (before + (k + c))[i] == c[0] && (before + (k + e))[i] == e[0];
  }

  /**
    The backend's payload is the one that the firmware builds for the same values if and
    only if every number is added in its own width, and addBigInt is given one of more
    than 32 bits.
   */
  lemma BackendAgrees(cs: seq<Call>)
    ensures (Pushed(cs).Some? && [0xBF] + Pushed(cs).value + [0xFF] == EncodeMap(PairsOf(cs))) <==>
            forall i :: 0 <= i < |cs| ==> Suits(cs[i].add)
  {
    PushedExactly(cs);
    if Pushed(cs).Some? {
      var a, b := Pushed(cs).value, EncodePairs(PairsOf(cs));
      if [0xBF] + a + [0xFF] == [0xBF] + b + [0xFF] {
        assert a == ([0xBF] + a + [0xFF])[1..|a| + 1] == b;
      }
    }
  }
}
