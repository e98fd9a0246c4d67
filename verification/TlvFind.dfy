/**
  The finders and readers of payload maps, and what they get back from a map that was built.

  A finder returns the whole encoded item of an entry, head included; the readers decode it.
 */
module TlvFind {
  import opened Basics
  import opened Cbor
  import opened Tlv

  // ---------------------------------------------------------------- firmware finder

  /** `Outside` is a read behind the buffer, `Wrapped` a cursor that no longer fits in 16 bits. */
  datatype Found = NotFound | Found(start: nat, end: nat) | Outside | Wrapped

  datatype KeyRead = Key(key: Byte, next: nat) | BadKey | KeyOutside

  function ReadKey(buf: Bytes, i: nat): (r: KeyRead)
    ensures r.Key? ==> r.next > i
  {
    if i >= |buf| then KeyOutside
    else if buf[i] < 24 then Key(buf[i], i + 1)
    else if buf[i] != 0x18 then BadKey
    else if i + 1 >= |buf| then KeyOutside
    else Key(buf[i + 1], i + 2)
  }

  /** ykp_tlv_find from the entry at `i` on. */
  function FindFrom(buf: Bytes, i: nat, indefinite: bool, key: Byte): (r: Found)
    ensures r.Found? ==> r.start < r.end
    decreases |buf| - i
  {
    if i >= |buf| || (indefinite && buf[i] == 0xFF) then NotFound
    else
      match ReadKey(buf, i)
      case BadKey => NotFound
      case KeyOutside => Outside
      case Key(k, start) =>
        match ItemEnd(buf, start)
        case None => Outside
        case Some(end) =>
          if end > UINT16_MAX then Wrapped
          else if k == key then Found(start, end)
          else FindFrom(buf, end, indefinite, key)
  }

  function FindTlv(buf: Bytes, key: Byte): (r: Found)
    ensures r.Found? ==> r.start < r.end
  {
    if |buf| < 2 then NotFound
    else if buf[0] == 0xBF then FindFrom(buf, 1, true, key)
    else if buf[0] / 32 != 5 then NotFound
    else FindFrom(buf, if buf[0] % 32 == 0x18 then 2 else 1, false, key)
  }

  /** ykp_tlv_find. */
  method Find(buf: Bytes, key: Byte) returns (r: Found)
    requires |buf| <= UINT16_MAX
    ensures r == FindTlv(buf, key)
  {
    hide ItemEnd;
    if |buf| < 2 {
      return NotFound;
    }
    var i: nat := 1;
    var indefinite := buf[0] == 0xBF;
    if !indefinite {
      if buf[0] / 32 != 5 {
        return NotFound;
      }
      if buf[0] % 32 == 0x18 {
        i := i + 1;
      }
    }
    ghost var goal := FindTlv(buf, key);
    while i < |buf|
      invariant FindFrom(buf, i, indefinite, key) == goal
      decreases |buf| - i
    {
      if indefinite && buf[i] == 0xFF {
        return NotFound;
      }
      match ReadKey(buf, i) {
        case BadKey => return NotFound;
        case KeyOutside => return Outside;
        case Key(k, start) =>
          match ItemEnd(buf, start) {
            case None => return Outside;
            case Some(end) =>
              if end > UINT16_MAX {
                return Wrapped;
              }
              if k == key {
                return Found(start, end);
              }
              i := end;
          }
      }
    }
    r := NotFound;
  }

  // ---------------------------------------------------------------- backend parser

  /** A TlvEntry; its type is `undefined` if the key byte is missing. */
  datatype Entry = Entry(key: Option<Byte>, value: Bytes)

  datatype Cursor = At(i: nat) | NotANumber | Throws

  function Undefined(buf: Bytes, i: nat): Option<Byte> {
    if i < |buf| then Some(buf[i]) else None
  }

  /** The cursor of parseTlv behind the item at `i`; a missing head acts as 0 in its bit tests. */
  function ItemCursor(buf: Bytes, i: nat): (r: Cursor)
    ensures r.At? ==> r.i > i
  {
    var head: nat := if i < |buf| then buf[i] else 0;
    var major, info := head / 32, head % 32;
    if major == 0 || major == 1 then
      At(i + 1 + if info == 0x18 then 1 else if info == 0x19 then 2
                 else if info == 0x1A then 4 else if info == 0x1B then 8 else 0)
    else if major == 2 || major == 3 then
      if info < 24 then At(i + 1 + info)
      else if info == 0x18 then
        if i + 1 >= |buf| then NotANumber else At(i + 2 + buf[i + 1])
      else if info == 0x19 then
        if i + 2 >= |buf| then Throws else At(i + 3 + FromBigEndian(buf[i + 1..i + 3]))
      else At(i + 1)
    else if major == 7 then
      At(i + 1 + if info == 25 then 2 else if info == 26 then 4 else if info == 27 then 8 else 0)
    else At(i + 1)
  }

  /** buf.subarray. */
  function Subarray(buf: Bytes, start: nat, end: nat): Bytes {
    var a, b := if start < |buf| then start else |buf|, if end < |buf| then end else |buf|;
    if a <= b then buf[a..b] else []
  }

  function Before(e: Entry, r: Option<seq<Entry>>): Option<seq<Entry>> {
    match r
    case None => None
    case Some(es) => Some([e] + es)
  }

  /** The loop of parseTlv from `i` on; None where it throws. */
  function EntriesFrom(buf: Bytes, i: nat, indefinite: bool): Option<seq<Entry>>
    decreases |buf| - i
  {
    if i >= |buf| || (indefinite && buf[i] == 0xFF) || buf[i] > 24 then Some([])
    else
      var key, start := if buf[i] < 24 then Some(buf[i]) else Undefined(buf, i + 1),
          if buf[i] < 24 then i + 1 else i + 2;
      match ItemCursor(buf, start)
      case Throws => None
      case NotANumber => Some([Entry(key, [])])
      case At(end) => Before(Entry(key, Subarray(buf, start, end)), EntriesFrom(buf, end, indefinite))
  }

  function Entries(buf: Bytes): Option<seq<Entry>> {
    if |buf| < 2 then Some([]) else EntriesFrom(buf, 1, buf[0] == 0xBF)
  }

  function AllBefore(es: seq<Entry>, r: Option<seq<Entry>>): Option<seq<Entry>> {
    match r
    case None => None
    case Some(more) => Some(es + more)
  }

  lemma AllBeforeOneMore(es: seq<Entry>, e: Entry, r: Option<seq<Entry>>)
    ensures AllBefore(es, Before(e, r)) == AllBefore(es + [e], r)
    ensures AllBefore([], r) == r && AllBefore(es, Some([])) == Some(es)
  {
    assert es + [] == es;
    match r
    case None =>
    case Some(more) =>
      assert es + ([e] + more) == es + [e] + more;
      assert [] + more == more;
  }

  /** parseTlv; None where it throws. */
  method ParseTlv(buf: Bytes) returns (r: Option<seq<Entry>>)
    ensures r == Entries(buf)
  {
    hide ItemCursor, Subarray;
    if |buf| < 2 {
      return Some([]);
    }
    var entries: seq<Entry> := [];
    var indefinite := buf[0] == 0xBF;
    var i: nat := 1;
    AllBeforeOneMore([], Entry(None, []), EntriesFrom(buf, 1, indefinite));
    while i < |buf|
      invariant AllBefore(entries, EntriesFrom(buf, i, indefinite)) == Entries(buf)
      decreases |buf| - i
    {
      AllBeforeOneMore(entries, Entry(None, []), None);
      if indefinite && buf[i] == 0xFF {
        return Some(entries);
      }
      var key, start;
      if buf[i] < 24 {
        key, start := Some(buf[i]), i + 1;
      } else if buf[i] == 0x18 {
        key, start := Undefined(buf, i + 1), i + 2;
      } else {
        return Some(entries);
      }
      match ItemCursor(buf, start) {
        case Throws => return None;
        case NotANumber =>
          return Some(entries + [Entry(key, [])]);
        case At(end) =>
          AllBeforeOneMore(entries, Entry(key, Subarray(buf, start, end)), EntriesFrom(buf, end, indefinite));
          entries := entries + [Entry(key, Subarray(buf, start, end))];
          i := end;
      }
    }
    AllBeforeOneMore(entries, Entry(None, []), None);
    r := Some(entries);
  }

  /** entries.find: the value of the first entry with the key. */
  function FirstEntry(es: seq<Entry>, key: Byte): Option<Bytes> {
    if es == [] then None else if es[0].key == Some(key) then Some(es[0].value) else FirstEntry(es[1..], key)
  }

  // ---------------------------------------------------------------- what they find in a built map

  /** The item of the first pair with the key. */
  function FirstItem(ps: seq<Pair>, key: Byte): (r: Option<Item>)
    ensures r.None? <==> forall i :: 0 <= i < |ps| ==> ps[i].key != key
    ensures r.Some? ==> exists i :: 0 <= i < |ps| && ps[i] == Pair(key, r.value) && forall j :: 0 <= j < i ==>
              ps[j].key != key
  {
    if ps == [] then None
    else if ps[0].key == key then assert ps[0] == Pair(key, ps[0].item); Some(ps[0].item)
    else
      var r := FirstItem(ps[1..], key);
      assert forall i :: 1 <= i < |ps| ==> ps[i] == ps[1..][i - 1];
      assert r.Some? ==> exists i :: 0 <= i < |ps| && ps[i] == Pair(key, r.value) && forall j :: 0 <= j < i ==>
            ps[j].key != key by {
        if r.Some? {
          var i :| 0 <= i < |ps| - 1 && ps[1..][i] == Pair(key, r.value) && forall j :: 0 <= j < i ==>
                ps[1..][j].key != key;
          assert ps[i + 1] == Pair(key, r.value);
          assert forall j :: 1 <= j < i + 1 ==> ps[j].key == ps[1..][j - 1].key;
        }
      }
      r
  }

  function EntriesOf(ps: seq<Pair>): seq<Entry> {
    if ps == [] then [] else [Entry(Some(ps[0].key), EncodeItem(ps[0].item))] + EntriesOf(ps[1..])
  }

  /** Reading one encoded pair in its place. */
  lemma PairInPlace(pre: Bytes, p: Pair, rest: Bytes)
    requires Encodable(p.item)
    ensures var buf, start, end := pre + (EncodePair(p) + rest), |pre| + |EncodeKey(p.key)|, |pre| + |EncodePair(p)|;
            && |pre| < |buf| && buf[|pre|] <= 24 && ReadKey(buf, |pre|) == Key(p.key, start)
            && ItemEnd(buf, start) == Some(end) && ItemCursor(buf, start) == At(end)
            && end <= |buf| && buf[start..end] == EncodeItem(p.item)
    ensures pre + (EncodePair(p) + rest) == (pre + EncodePair(p)) + rest
  {
    var k, e := EncodeKey(p.key), EncodeItem(p.item);
    var buf := pre + (EncodePair(p) + rest);
    assert buf == pre + k + e + rest;
    ItemEndOfEncoded(pre + k, p.item, rest);
    assert buf[|pre|] == k[0];
    assert |k| == 2 ==> buf[|pre| + 1] == k[1];
    CursorAgrees(buf, |pre + k|);
  }

  /** Inside the buffer both finders step over an item alike. */
  lemma CursorAgrees(buf: Bytes, i: nat)
    requires ItemEnd(buf, i).Some?
    ensures ItemCursor(buf, i) == At(ItemEnd(buf, i).value)
  {
  }

  lemma {:induction false} FindInPlace(pre: Bytes, ps: seq<Pair>, key: Byte)
    requires AllEncodable(ps) && |pre| + |EncodePairs(ps)| <= UINT16_MAX
    ensures var buf := pre + (EncodePairs(ps) + [0xFF]);
            match FirstItem(ps, key)
            case None => FindFrom(buf, |pre|, true, key) == NotFound
            case Some(v) =>
              && FindFrom(buf, |pre|, true, key).Found?
              && FindFrom(buf, |pre|, true, key).start <= FindFrom(buf, |pre|, true, key).end <= |buf|
              && buf[FindFrom(buf, |pre|, true, key).start..FindFrom(buf, |pre|, true, key).end] == EncodeItem(v)
    decreases |ps|
  {
    hide EncodePair, EncodeItem, ItemEnd, ItemCursor, ReadKey;
    if ps != [] {
      var rest := EncodePairs(ps[1..]) + [0xFF];
      EncodePairsFront(ps);
      assert EncodePairs(ps) + [0xFF] == EncodePair(ps[0]) + rest;
      PairInPlace(pre, ps[0], rest);
      FindInPlace(pre + EncodePair(ps[0]), ps[1..], key);
    }
  }

  /** Firmware: in a map that was built, a key is found with the whole item of its first entry. */
  lemma FindsFirst(ps: seq<Pair>, key: Byte)
    requires AllEncodable(ps) && |EncodeMap(ps)| <= UINT16_MAX
    ensures var r := FindTlv(EncodeMap(ps), key);
            match FirstItem(ps, key)
            case None => r == NotFound
            case Some(v) =>
                  r.Found? && r.start <= r.end <= |EncodeMap(ps)| && EncodeMap(ps)[r.start..r.end] == EncodeItem(v)
  {
    assert EncodeMap(ps) == [0xBF] + (EncodePairs(ps) + [0xFF]);
    FindInPlace([0xBF], ps, key);
  }

  lemma {:induction false} EntriesInPlace(pre: Bytes, ps: seq<Pair>)
    requires AllEncodable(ps)
    ensures EntriesFrom(pre + (EncodePairs(ps) + [0xFF]), |pre|, true) == Some(EntriesOf(ps))
    decreases |ps|
  {
    hide EncodePair, EncodeItem, ItemEnd, ItemCursor;
    if ps != [] {
      var rest := EncodePairs(ps[1..]) + [0xFF];
      EncodePairsFront(ps);
      assert EncodePairs(ps) + [0xFF] == EncodePair(ps[0]) + rest;
      PairInPlace(pre, ps[0], rest);
      EntriesInPlace(pre + EncodePair(ps[0]), ps[1..]);
    }
  }

  /** Backend: parsing a map that was built gives its pairs, in order, and finding gives the first of a key. */
  lemma ParsesAll(ps: seq<Pair>, key: Byte)
    requires AllEncodable(ps)
    ensures Entries(EncodeMap(ps)) == Some(EntriesOf(ps))
    ensures FirstEntry(EntriesOf(ps), key) ==
            if FirstItem(ps, key).None? then None else Some(EncodeItem(FirstItem(ps, key).value))
  {
    assert EncodeMap(ps) == [0xBF] + (EncodePairs(ps) + [0xFF]);
    EntriesInPlace([0xBF], ps);
    FirstOfEntries(ps, key);
  }

  lemma {:induction false} FirstOfEntries(ps: seq<Pair>, key: Byte)
    ensures FirstEntry(EntriesOf(ps), key) ==
            if FirstItem(ps, key).None? then None else Some(EncodeItem(FirstItem(ps, key).value))
  {
    if ps != [] {
      FirstOfEntries(ps[1..], key);
      assert EntriesOf(ps)[1..] == EntriesOf(ps[1..]);
    }
  }
}
