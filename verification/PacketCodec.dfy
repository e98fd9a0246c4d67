/**
  The YKP v5 packet: a 33-byte header, the payload, and a 16-byte authentication tag, as written and
  read by the firmware and by the backend.

  Device ids are byte strings here; for the backend they are ASCII, since other text would go through
  UTF-8.
 */
module PacketCodec {
  import opened Basics
  import opened Cbor

  const MAGIC_0: Byte := 0x59
  const MAGIC_1: Byte := 0x4B
  const VERSION: Byte := 0x05
  const HEADER_SIZE: nat := 33
  const TAG_SIZE: nat := 16
  const ID_LEN: nat := 8
  const RX_PAYLOAD: nat := 512
  const FLAG_ENCRYPTED: nat := 0x04
  const FLAG_ACK: nat := 0x10

  datatype Header = Header(
    flags: Byte, packetId: nat, sessionId: nat, sourceId: Bytes, destId: Bytes, route: Byte, service: Byte,
        action: Byte)

  datatype Packet = Packet(header: Header, payload: Bytes, tag: Bytes)

  /** The widths of the C struct. */
  predicate WellFormed(p: Packet) {
    && p.header.packetId <= UINT32_MAX && p.header.sessionId <= UINT32_MAX
    && |p.header.sourceId| == |p.header.destId| == ID_LEN
    && |p.payload| <= UINT16_MAX && |p.tag| == TAG_SIZE
  }

  function HeaderBytes(h: Header, payloadLen: nat): Bytes {
    [MAGIC_0, MAGIC_1, VERSION, h.flags] + BigEndian(h.packetId, 4) + BigEndian(h.sessionId, 4)
    + h.sourceId + h.destId + [h.route, h.service, h.action] + BigEndian(payloadLen, 2)
  }

  /** The packet on the wire. */
  function Wire(p: Packet): Bytes {
    HeaderBytes(p.header, |p.payload|) + p.payload + p.tag
  }

  // ---------------------------------------------------------------- ids

  /** memset and strncpy of a C string, and slice and write of a string, into eight bytes. */
  function PadId(s: Bytes): (r: Bytes)
    ensures |r| == ID_LEN
  {
    if |s| <= ID_LEN then s + Zeros(ID_LEN - |s|) else s[..ID_LEN]
  }

  /** replace(/\0/g, ''). */
  function StripNuls(s: Bytes): (r: Bytes)
    ensures |r| <= |s| && 0 !in r
  {
    if s == [] then [] else (if s[0] == 0 then [] else [s[0]]) + StripNuls(s[1..])
  }

  /** The ASCII characters that trim() removes. */
  predicate Blank(b: Byte) {
    9 <= b <= 13 || b == 32
  }

  function TrimStart(s: Bytes): (r: Bytes)
    ensures |r| <= |s| && (r != [] ==> !Blank(r[0])) && (r != [] ==> r[|r| - 1] == s[|s| - 1])
    ensures s != [] && !Blank(s[0]) ==> r == s
  {
    if s == [] || !Blank(s[0]) then s else TrimStart(s[1..])
  }

  function TrimEnd(s: Bytes): (r: Bytes)
    ensures |r| <= |s| && (r != [] ==> !Blank(r[|r| - 1])) && (r != [] ==> r[0] == s[0])
    ensures s != [] && !Blank(s[|s| - 1]) ==> r == s
  {
    if s == [] || !Blank(s[|s| - 1]) then s else TrimEnd(s[..|s| - 1])
  }

  function ReadId(s: Bytes): Bytes {
    TrimEnd(TrimStart(StripNuls(s)))
  }

  lemma {:induction false} StripPadding(s: Bytes, n: nat)
    requires 0 !in s
    ensures StripNuls(s + Zeros(n)) == s
    decreases |s| + n
  {
    if s != [] {
      assert (s + Zeros(n))[1..] == s[1..] + Zeros(n);
      StripPadding(s[1..], n);
    } else if n > 0 {
      assert (s + Zeros(n))[1..] == s + Zeros(n - 1);
      StripPadding(s, n - 1);
    }
  }

  /** At most eight characters, no NUL, and no blank at either end. */
  predicate Plain(s: Bytes) {
    |s| <= ID_LEN && 0 !in s && (s != [] ==> !Blank(s[0]) && !Blank(s[|s| - 1]))
  }

  /** An id comes back from the header exactly if it is plain. */
  lemma IdRoundTrip(s: Bytes)
    ensures ReadId(PadId(s)) == s <==> Plain(s)
  {
    if Plain(s) {
      StripPadding(s, ID_LEN - |s|);
    } else if 0 in s && ReadId(PadId(s)) == s {
      StripKeepsTrim(StripNuls(PadId(s)));
    }
  }

  lemma {:induction false} TrimStartSubset(s: Bytes)
    requires 0 !in s
    ensures 0 !in TrimStart(s)
  {
    if s != [] && Blank(s[0]) {
      TrimStartSubset(s[1..]);
    }
  }

  lemma {:induction false} TrimEndSubset(s: Bytes)
    requires 0 !in s
    ensures 0 !in TrimEnd(s)
  {
    if s != [] && Blank(s[|s| - 1]) {
      TrimEndSubset(s[..|s| - 1]);
    }
  }

  lemma StripKeepsTrim(s: Bytes)
    requires 0 !in s
    ensures 0 !in TrimEnd(TrimStart(s))
  {
    TrimStartSubset(s);
    TrimEndSubset(TrimStart(s));
  }

  // ---------------------------------------------------------------- firmware

  /** ykp_packet_set_header. */
  function SetHeader(packetId: nat, sessionId: nat, source: Bytes, dest: Bytes,
                     route: Byte, service: Byte, action: Byte, qos: nat, encrypted: bool): Header
  {
    Header(qos % 4 + if encrypted then FLAG_ENCRYPTED else 0, packetId, sessionId, PadId(source), PadId(dest), route,
        service, action)
  }

  /** A write position in an output buffer. */
  class Output {
    const buf: array<Byte>
    var at: nat

    constructor (buf: array<Byte>)
      ensures this.buf == buf && at == 0
    {
      this.buf, at := buf, 0;
    }

    method Put(s: Bytes)
      requires at + |s| <= buf.Length
      modifies this, buf
      ensures at == old(at) + |s| && buf[..at] == old(buf[..at]) + s
    {
      var i: nat := 0;
      while i < |s|
        invariant i <= |s| && at == old(at)
        invariant buf[..at + i] == old(buf[..at]) + s[..i]
      {
        buf[at + i] := s[i];
        i := i + 1;
      }
      at := at + |s|;
    }
  }

  /** The packet's length as the writer computes it, in 16 bits. */
  function Total(p: Packet): nat {
    (HEADER_SIZE + |p.payload| + TAG_SIZE) % 0x1_0000
  }

  /**
    Every write of the serialisation is inside the buffer: the length fits in 16 bits, or its low
    16 bits are refused.
   */
  predicate Inside(p: Packet, size: nat) {
    |Wire(p)| <= UINT16_MAX || Total(p) > size
  }

  /**
    ykp_packet_serialise; 0 if the buffer is too small by the 16-bit total. For a payload of more than
    65486 bytes that total has wrapped around, and the writes can leave the buffer: then nothing is said.
   */
  method Serialise(p: Packet, buf: array<Byte>) returns (n: nat, inside: bool)
    requires WellFormed(p) && buf.Length <= UINT16_MAX
    modifies buf
    ensures inside == Inside(p, buf.Length)
    ensures inside ==> n == if |Wire(p)| <= buf.Length then |Wire(p)| else 0
    ensures inside ==> buf[..n] == Wire(p)[..n]
    ensures inside && n == 0 ==> buf[..] == old(buf[..])
  {
    hide BigEndian, HeaderBytes;
    var length := HEADER_SIZE + |p.payload| + TAG_SIZE;
    var total := length % 0x1_0000;
    HeaderLength(p.header, |p.payload|);
    if total > buf.Length {
      return 0, true;
    }
    if length > buf.Length {
      return 0, false;
    }
    var o := new Output(buf);
    PutHeader(o, p.header, |p.payload|);
    if |p.payload| > 0 {
      o.Put(p.payload);
    }
    assert buf[..o.at] == HeaderBytes(p.header, |p.payload|) + p.payload;
    o.Put(p.tag);
    n, inside := total, true;
    assert Wire(p)[..n] == Wire(p);
  }

  lemma HeaderLength(h: Header, n: nat)
    requires |h.sourceId| == |h.destId| == ID_LEN
    ensures |HeaderBytes(h, n)| == HEADER_SIZE
  {
  }

  /** The part of ykp_packet_serialise before the payload. */
  method PutHeader(o: Output, h: Header, n: nat)
    requires o.at == 0 && o.buf.Length >= HEADER_SIZE && |h.sourceId| == |h.destId| == ID_LEN
    modifies o, o.buf
    ensures o.at == HEADER_SIZE && o.buf[..o.at] == HeaderBytes(h, n)
  {
    hide BigEndian;
    o.Put([MAGIC_0, MAGIC_1, VERSION, h.flags]);
    ghost var done := [MAGIC_0, MAGIC_1, VERSION, h.flags];
    assert o.buf[..o.at] == done;
    o.Put(BigEndian(h.packetId, 4));
    o.Put(BigEndian(h.sessionId, 4));
    done := done + BigEndian(h.packetId, 4) + BigEndian(h.sessionId, 4);
    assert o.buf[..o.at] == done;
    o.Put(h.sourceId);
    o.Put(h.destId);
    done := done + h.sourceId + h.destId;
    assert o.buf[..o.at] == done;
    o.Put([h.route, h.service, h.action]);
    o.Put(BigEndian(n, 2));
  }

  /** ykp_packet_parse with ykp_packet_validate_header. */
  function ParseInFirmware(raw: Bytes): Option<Packet> {
    if |raw| < HEADER_SIZE + TAG_SIZE || raw[0] != MAGIC_0 || raw[1] != MAGIC_1 || raw[2] != VERSION then None
    else
      var n := FromBigEndian(raw[31..33]);
      var expected := (HEADER_SIZE + n + TAG_SIZE) % 0x1_0000;
      if |raw| < expected || n > RX_PAYLOAD then None
      else
        Some(Packet(
          Header(raw[3], FromBigEndian(raw[4..8]), FromBigEndian(raw[8..12]), raw[12..20], raw[20..28], raw[28],
              raw[29], raw[30]),
          raw[33..33 + n], raw[33 + n..49 + n]))
  }

  // ---------------------------------------------------------------- backend

  datatype Options = Options(
    packetId: nat, sessionId: nat, sourceId: Bytes, destId: Bytes, route: nat, service: nat, action: nat,
    qos: nat, encrypted: bool, ack: bool, payload: Bytes, authTag: Bytes)

  function Flags(o: Options): Byte {
    o.qos % 4 + (if o.encrypted then FLAG_ENCRYPTED else 0) + if o.ack then FLAG_ACK else 0
  }

  /** The tag as far as it fits, on zeros. */
  function TagBytes(tag: Bytes): (r: Bytes)
    ensures |r| == TAG_SIZE
  {
    if |tag| <= TAG_SIZE then tag + Zeros(TAG_SIZE - |tag|) else tag[..TAG_SIZE]
  }

  /** buildPacket; None where a write throws. */
  function BuildPacket(o: Options): Option<Bytes> {
    if o.packetId > UINT32_MAX || o.sessionId > UINT32_MAX || |o.payload| > UINT16_MAX then None
    else
      Some(HeaderBytes(
             Header(Flags(o), o.packetId, o.sessionId, PadId(o.sourceId), PadId(o.destId), o.route % 256,
                 o.service % 256, o.action % 256),
             |o.payload|)
           + o.payload + TagBytes(o.authTag))
  }

  /** buildPacket as it writes its buffer at a moving offset. */
  method Build(o: Options) returns (r: Option<Bytes>)
    ensures r == BuildPacket(o)
  {
    hide HeaderBytes;
    var total := HEADER_SIZE + |o.payload| + TAG_SIZE;
    var buf := new Byte[total](_ => 0);
    if o.packetId > UINT32_MAX || o.sessionId > UINT32_MAX || |o.payload| > UINT16_MAX {
      return None;
    }
    var out := new Output(buf);
    ghost var h := Header(Flags(o), o.packetId, o.sessionId, PadId(o.sourceId), PadId(o.destId), o.route % 256,
        o.service % 256, o.action % 256);
    PutHeader(out, Header(Flags(o), o.packetId, o.sessionId, PadId(o.sourceId), PadId(o.destId), o.route % 256,
        o.service % 256, o.action % 256), |o.payload|);
    out.Put(o.payload);
    assert buf[..out.at] == HeaderBytes(h, |o.payload|) + o.payload;
    out.Put(TagBytes(o.authTag));
    r := Some(buf[..]);
    assert buf[..] == buf[..out.at];
  }

  datatype Received = Received(
    flags: Byte, packetId: nat, sessionId: nat, sourceId: Bytes, destId: Bytes, route: Byte, service: Byte,
        action: Byte,
    payload: Bytes, authTag: Bytes)

  /** parsePacket. */
  function ParsePacket(raw: Bytes): Option<Received> {
    if |raw| < HEADER_SIZE + TAG_SIZE || raw[0] != MAGIC_0 || raw[1] != MAGIC_1 || raw[2] != VERSION then None
    else
      var n := FromBigEndian(raw[31..33]);
      if |raw| < HEADER_SIZE + n + TAG_SIZE then None
      else
        Some(Received(
          raw[3], FromBigEndian(raw[4..8]), FromBigEndian(raw[8..12]), ReadId(raw[12..20]), ReadId(raw[20..28]),
          raw[28], raw[29], raw[30], raw[33..33 + n], raw[33 + n..49 + n]))
  }

  // ---------------------------------------------------------------- round trips

  lemma HeaderFields(h: Header, n: nat, rest: Bytes)
    requires h.packetId <= UINT32_MAX && h.sessionId <= UINT32_MAX && n <= UINT16_MAX
    requires |h.sourceId| == |h.destId| == ID_LEN
    ensures var raw := HeaderBytes(h, n) + rest;
            && |HeaderBytes(h, n)| == HEADER_SIZE
            && raw[0] == MAGIC_0 && raw[1] == MAGIC_1 && raw[2] == VERSION && raw[3] == h.flags
            && FromBigEndian(raw[4..8]) == h.packetId && FromBigEndian(raw[8..12]) == h.sessionId
            && raw[12..20] == h.sourceId && raw[20..28] == h.destId
            && raw[28] == h.route && raw[29] == h.service && raw[30] == h.action
            && FromBigEndian(raw[31..33]) == n
  {
    hide BigEndian, FromBigEndian;
    var a, b, c := BigEndian(h.packetId, 4), BigEndian(h.sessionId, 4), BigEndian(n, 2);
    Widths();
    BigEndianRoundTrip(h.packetId, 4);
    BigEndianRoundTrip(h.sessionId, 4);
    BigEndianRoundTrip(n, 2);
    var raw := HeaderBytes(h, n) + rest;
    assert raw[4..8] == a;
    assert raw[8..12] == b;
    assert raw[31..33] == c;
  }

  lemma Sections(head: Bytes, payload: Bytes, tag: Bytes)
    requires |head| == HEADER_SIZE && |tag| == TAG_SIZE
    ensures var raw, n := head + payload + tag, |payload|;
            raw == head + (payload + tag) && raw[33..33 + n] == payload && raw[33 + n..49 + n] == tag
  {
  }

  /** Firmware: parsing undoes serialising exactly for payloads that fit the receive buffer. */
  lemma FirmwareRoundTrip(p: Packet)
    requires WellFormed(p)
    ensures ParseInFirmware(Wire(p)) == if |p.payload| <= RX_PAYLOAD then Some(p) else None
  {
    hide BigEndian, FromBigEndian, HeaderBytes;
    HeaderFields(p.header, |p.payload|, p.payload + p.tag);
    Sections(HeaderBytes(p.header, |p.payload|), p.payload, p.tag);
  }

  /** Both writers produce the same bytes for the same fields. */
  lemma SameBytes(o: Options, route: Byte, service: Byte, action: Byte)
    requires o.packetId <= UINT32_MAX && o.sessionId <= UINT32_MAX && |o.payload| <= UINT16_MAX &&
             |o.authTag| == TAG_SIZE
    requires o.route == route && o.service == service && o.action == action && !o.ack
    ensures var h := SetHeader(o.packetId, o.sessionId, o.sourceId, o.destId, route, service, action, o.qos,
            o.encrypted);
            WellFormed(Packet(h, o.payload, o.authTag)) && BuildPacket(o) == Some(Wire(Packet(h, o.payload, o.authTag)))
  {
    hide HeaderBytes;
    FullTag(o.authTag);
  }

  lemma FullTag(tag: Bytes)
    requires |tag| == TAG_SIZE
    ensures TagBytes(tag) == tag
  {
  }

  /** The backend reads what the firmware (or itself) wrote, ids exactly as far as they are plain. */
  lemma BackendReads(h: Header, source: Bytes, dest: Bytes, payload: Bytes, tag: Bytes)
    requires WellFormed(Packet(h, payload, tag)) && h.sourceId == PadId(source) && h.destId == PadId(dest)
    ensures var r := ParsePacket(Wire(Packet(h, payload, tag)));
            && r.Some?
            && r.value == Received(h.flags, h.packetId, h.sessionId, ReadId(PadId(source)), ReadId(PadId(dest)),
                                   h.route, h.service, h.action, payload, tag)
            && (r.value.sourceId == source <==> Plain(source)) && (r.value.destId == dest <==> Plain(dest))
  {
    hide BigEndian, FromBigEndian, HeaderBytes, ReadId, PadId, Plain;
    HeaderFields(h, |payload|, payload + tag);
    Sections(HeaderBytes(h, |payload|), payload, tag);
    IdRoundTrip(source);
    IdRoundTrip(dest);
  }

  /** Backend: parsing undoes building, for payloads of up to 65535 bytes. */
  lemma BackendRoundTrip(o: Options)
    requires o.packetId <= UINT32_MAX && o.sessionId <= UINT32_MAX && |o.payload| <= UINT16_MAX &&
             |o.authTag| == TAG_SIZE
    requires o.route < 256 && o.service < 256 && o.action < 256 && Plain(o.sourceId) && Plain(o.destId)
    ensures BuildPacket(o).Some?
    ensures ParsePacket(BuildPacket(o).value) ==
            Some(Received(Flags(o), o.packetId, o.sessionId, o.sourceId, o.destId, o.route, o.service, o.action,
                o.payload, o.authTag))
  {
    hide HeaderBytes, ParsePacket, PadId, ReadId, Plain;
    var h := Header(Flags(o), o.packetId, o.sessionId, PadId(o.sourceId), PadId(o.destId), o.route, o.service,
        o.action);
    FullTag(o.authTag);
    BackendReads(h, o.sourceId, o.destId, o.payload, o.authTag);
  }

  /** The firmware reads what the backend wrote, if the payload fits its receive buffer. */
  lemma FirmwareReads(o: Options)
    requires o.packetId <= UINT32_MAX && o.sessionId <= UINT32_MAX && |o.payload| <= UINT16_MAX &&
             |o.authTag| == TAG_SIZE
    requires o.route < 256 && o.service < 256 && o.action < 256
    ensures BuildPacket(o).Some?
    ensures var h := Header(Flags(o), o.packetId, o.sessionId, PadId(o.sourceId), PadId(o.destId), o.route, o.service,
            o.action);
            ParseInFirmware(BuildPacket(o).value) ==
            if |o.payload| <= RX_PAYLOAD then Some(Packet(h, o.payload, o.authTag)) else None
  {
    hide HeaderBytes, ParseInFirmware, PadId;
    var h := Header(Flags(o), o.packetId, o.sessionId, PadId(o.sourceId), PadId(o.destId), o.route, o.service,
        o.action);
    FullTag(o.authTag);
    FirmwareRoundTrip(Packet(h, o.payload, o.authTag));
  }
}
