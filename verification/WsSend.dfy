/**
  Sending one message over a WebSocket in pieces of at most `buffer_size` bytes.

  A frame is what one call of the transport was asked to send, and how much of it the transport
  took. The opcode without its FIN bit is a number, 0 for a continuation.
 */
module WsSend {
  import opened Basics

  datatype Frame = Frame(opcode: nat, fin: bool, payload: Bytes, written: nat)

  // ---------------------------------------------------------------- what should be sent

  /** The frames of a message when every write is complete. */
  function Fragment(opcode: nat, fin: bool, data: Bytes, size: nat): seq<Frame>
    requires size > 0
    decreases |data|
  {
    if |data| <= size then [Frame(opcode, fin, data, |data|)]
    else [Frame(opcode, false, data[..size], size)] + Fragment(0, fin, data[size..], size)
  }

  /** The bytes that the transport took. */
  function Taken(frames: seq<Frame>): Bytes
    requires forall i :: 0 <= i < |frames| ==> frames[i].written <= |frames[i].payload|
  {
    if frames == [] then []
    else Taken(frames[..|frames| - 1]) + frames[|frames| - 1].payload[..frames[|frames| - 1].written]
  }

  /** A receiver's view, section 5.4 of RFC 6455: the opcode of the first frame, the data, whether the message ended. */
  datatype Message = Message(opcode: nat, data: Bytes, ended: bool) | Malformed

  /** Reassembly: all frames after the first are continuations, and none follows a FIN. */
  function Reassemble(frames: seq<Frame>): Message {
    if frames == [] then Malformed
    else if |frames| == 1 then Message(frames[0].opcode, frames[0].payload, frames[0].fin)
    else
      match Reassemble(frames[1..])
      case Malformed => Malformed
      case Message(opcode, data, ended) =>
        if frames[0].fin || opcode != 0 then Malformed
        else Message(frames[0].opcode, frames[0].payload + data, ended)
  }

  /** Fragments of a message reassemble to it. */
  lemma {:induction false} FragmentsReassemble(opcode: nat, fin: bool, data: Bytes, size: nat)
    requires size > 0
    ensures Reassemble(Fragment(opcode, fin, data, size)) == Message(opcode, data, fin)
    decreases |data|
  {
    if |data| > size {
      var rest := Fragment(0, fin, data[size..], size);
      FragmentsReassemble(0, fin, data[size..], size);
      assert Fragment(opcode, fin, data, size)[1..] == rest;
      assert data[..size] + data[size..] == data;
    }
  }

  /** Each fits the buffer, only the first carries the opcode, and only the last can carry FIN, exactly if requested. */
  lemma {:induction false} FragmentShape(opcode: nat, fin: bool, data: Bytes, size: nat, i: nat)
    requires size > 0 && i < |Fragment(opcode, fin, data, size)|
    ensures var frames := Fragment(opcode, fin, data, size);
            && |frames[i].payload| <= size
            && frames[i].opcode == (if i == 0 then opcode else 0)
            && frames[i].fin == (fin && i == |frames| - 1)
    decreases |data|
  {
    if |data| > size && i > 0 {
      FragmentShape(0, fin, data[size..], size, i - 1);
    }
  }

  // ---------------------------------------------------------------- the send loop

  /** What the transport takes of a frame: `transport(k, n)` of the n bytes of its k-th call; negative on error. */
  ghost predicate Honest(transport: (nat, nat) -> int) {
    forall k: nat, n: nat :: transport(k, n) <= n
  }

  ghost predicate Full(transport: (nat, nat) -> int) {
    forall k: nat, n: nat :: transport(k, n) == n
  }

  /** Frames of one call: their data is consecutive, they fit the buffer, and only the first carries the opcode. */
  ghost predicate Piecewise(frames: seq<Frame>, opcode: nat, fin: bool, data: Bytes, size: nat) {
    && (forall i :: 0 <= i < |frames| ==> frames[i].written <= |frames[i].payload| <= size)
    && (forall i :: 0 <= i < |frames| ==> frames[i].opcode == if i == 0 then opcode else 0)
    && (forall i :: 0 <= i < |frames| ==> frames[i].fin ==> fin)
    && Taken(frames) <= data
  }

  lemma TakenMore(frames: seq<Frame>, f: Frame)
    requires forall i :: 0 <= i < |frames| ==> frames[i].written <= |frames[i].payload|
    requires f.written <= |f.payload|
    ensures Taken(frames + [f]) == Taken(frames) + f.payload[..f.written]
  {
    assert (frames + [f])[..|frames|] == frames;
  }

  /**
    The loop of esp_websocket_client_send_with_exact_opcode, once the lock is held. A short write is
    carried on with from where it ended. A negative `ret`, or 0 for data that did not go out, is an error.
   */
  method SendWithExactOpcode(opcode: nat, fin: bool, data: Bytes, size: nat, transport: (nat, nat) -> int)
    returns (ret: int, frames: seq<Frame>, failed: bool)
    requires size > 0 && Honest(transport)
    ensures Piecewise(frames, opcode, fin, data, size)
    ensures failed ==> ret <= 0
    ensures !failed ==> ret == |data| && Taken(frames) == data
    ensures Full(transport) ==> !failed
    ensures Full(transport) ==>
              frames == if opcode == 0 && !fin && data == [] then [] else Fragment(opcode, fin, data, size)
  {
    hide Fragment, Remaining, Taken, Piecewise, Full, Honest;
    NothingTaken(opcode, fin, data, size);
    frames, failed := [], false;
    var code, finBit, widx, needWrite: nat := opcode, fin, 0, |data|;
    ghost var goal := Remaining(opcode, fin, fin, data, size);
    assert data[0..] == data;
    assert [] + goal == goal;
    RemainingStep(opcode, fin, fin, data, size);
    while widx < |data| || code != 0 || finBit
      invariant widx <= |data| && needWrite == |data| - widx
      invariant Piecewise(frames, opcode, fin, data, size)
      invariant forall i :: 0 <= i < |frames| ==> frames[i].written <= |frames[i].payload|
      invariant Taken(frames) == data[..widx]
      invariant code == (if frames == [] then opcode else 0) && (frames == [] ==> finBit == fin && widx == 0) &&
                (frames != [] ==> !finBit)
      invariant finBit ==> fin
      invariant Full(transport) ==> frames + Remaining(code, fin, finBit, data[widx..], size) == goal
      decreases |data| - widx, code != 0 || finBit
    {
      ghost var rest, finBitBefore := data[widx..], finBit;
      if needWrite > size {
        needWrite := size;
        finBit := false;
      } else if fin {
        finBit := true;
      }
      var piece := data[widx..widx + needWrite];
      var wlen := transport(|frames|, needWrite);
      HonestCall(transport, |frames|, needWrite);
      if Full(transport) {
        FullCall(transport, |frames|, needWrite);
      }
      if wlen < 0 || (wlen == 0 && needWrite != 0) {
        return wlen, frames, true;
      }
      var frame := Frame(code, finBit, piece, wlen);
      PieceAdded(frames, frame, opcode, fin, data, size, widx);
      assert piece == rest[..needWrite] && rest[wlen..] == data[widx + wlen..];
      if Full(transport) {
        WrittenInFull(frames, code, fin, finBitBefore, rest, size, goal);
      }
      frames := frames + [frame];
      code, finBit := 0, false;
      widx := widx + wlen;
      needWrite := |data| - widx;
    }
    RemainingStep(code, fin, finBit, data[widx..], size);
    assert frames + [] == frames;
    ret := widx;
    assert data[..widx] == data;
  }

  /** What a loop that writes everything has yet to send. */
  ghost function Remaining(code: nat, fin: bool, finBit: bool, rest: Bytes, size: nat): seq<Frame>
    requires size > 0
  {
    if rest == [] && code == 0 && !finBit then [] else Fragment(code, fin, rest, size)
  }

  lemma RemainingStep(code: nat, fin: bool, finBit: bool, rest: Bytes, size: nat)
    requires size > 0
    ensures var all := Remaining(code, fin, finBit, rest, size);
            if rest == [] && code == 0 && !finBit then all == []
            else if |rest| <= size then all == [Frame(code, fin, rest, |rest|)] + Remaining(0, fin, false, [], size)
            else all == [Frame(code, false, rest[..size], size)] + Remaining(0, fin, false, rest[size..], size)
    ensures Remaining(code, fin, finBit, rest, size) ==
            if rest == [] && code == 0 && !finBit then [] else Fragment(code, fin, rest, size)
  {
  }

  lemma NothingTaken(opcode: nat, fin: bool, data: Bytes, size: nat)
    ensures Piecewise([], opcode, fin, data, size) && Taken([]) == [] == data[..0] && data[..|data|] == data
  {
  }

  lemma HonestCall(transport: (nat, nat) -> int, k: nat, n: nat)
    requires Honest(transport)
    ensures transport(k, n) <= n
  {
  }

  lemma FullCall(transport: (nat, nat) -> int, k: nat, n: nat)
    requires Full(transport)
    ensures transport(k, n) == n
  {
  }

  lemma PieceAdded(frames: seq<Frame>, f: Frame, opcode: nat, fin: bool, data: Bytes, size: nat, widx: nat)
    requires Piecewise(frames, opcode, fin, data, size)
    requires forall i :: 0 <= i < |frames| ==> frames[i].written <= |frames[i].payload|
    requires widx + |f.payload| <= |data| && f.payload == data[widx..widx + |f.payload|] &&
             Taken(frames) == data[..widx]
    requires f.written <= |f.payload| <= size && f.opcode == (if frames == [] then opcode else 0) && (f.fin ==> fin)
    ensures Piecewise(frames + [f], opcode, fin, data, size)
    ensures Taken(frames + [f]) == data[..widx + f.written]
  {
    hide Taken;
    TakenMore(frames, f);
    assert data[..widx] + f.payload[..f.written] == data[..widx + f.written];
  }

  lemma WrittenInFull(before: seq<Frame>, code: nat, fin: bool, finBit: bool, rest: Bytes, size: nat, goal: seq<Frame>)
    requires size > 0 && before + Remaining(code, fin, finBit, rest, size) == goal
    requires (rest != [] || code != 0 || finBit) && (finBit ==> fin)
    ensures var n := if |rest| > size then size else |rest|;
            before + [Frame(code, fin && |rest| <= size, rest[..n], n)] + Remaining(0, fin, false, rest[n..], size) ==
                goal
  {
    hide Remaining;
    RemainingStep(code, fin, finBit, rest, size);
    var n := if |rest| > size then size else |rest|;
    var f, more := Frame(code, fin && |rest| <= size, rest[..n], n), Remaining(0, fin, false, rest[n..], size);
    if |rest| <= size {
      assert rest[..n] == rest && rest[n..] == [];
    }
    assert before + ([f] + more) == before + [f] + more;
  }
}
