/**
  Firmware update over chunk messages that may be lost, repeated or out of order.

  The flash driver, the partition table and SHA-256 are outside: `Env` says which driver calls
  succeed for one message, and what is on the stack where a hash operation that is not open should
  have put its result; the hash is any function. `log` and `hashed` are bookkeeping: the chunks
  written since the last BEGIN, and what the hash operation was fed. A reboot ends a run.

  An item that runs past its payload counts as missing here; the code would take the bytes that
  happen to follow.
 */
module Ota {
  import opened Basics
  import opened Cbor
  import opened Tlv
  import opened TlvFind
  import opened TlvRead

  const TLV_CHUNK_INDEX: Byte := 0x0C
  const TLV_CHUNK_DATA: Byte := 0x0D
  const TLV_HASH: Byte := 0x0E

  datatype Action = Begin | Chunk | Complete | Install | OtherAction

  datatype Reply = Fail | Missing(n: nat) | Verify | Reboot

  datatype Env = Env(partition: bool, begin: bool, write: bool, end: bool, boot: bool, stack: Bytes)

  datatype Message = Message(action: Action, payload: Bytes, env: Env)

  datatype Written = Written(index: nat, data: Bytes)

  datatype State = State(
    active: bool, next: nat, sha256: Bytes, flash: Bytes, hashOpen: bool, hashed: Bytes, log: seq<Written>)

  function Off(): State {
    State(false, 0, Zeros(32), [], false, [], [])
  }

  /** ykp_tlv_find: the whole encoded item. */
  function FindItem(payload: Bytes, key: Byte): (r: Option<Bytes>)
    ensures r.Some? ==> r.value != []
  {
    match FindTlv(payload, key)
    case Found(start, end) => if start <= end <= |payload| then Some(payload[start..end]) else None
    case _ => None
  }

  function ChunkIndex(payload: Bytes): nat {
    match FindItem(payload, TLV_CHUNK_INDEX)
    case None => 0
    case Some(item) => if ReadUint(item, 2).Some? then ReadUint(item, 2).value else 0
  }

  // ---------------------------------------------------------------- one message

  function OnBegin(st: State, m: Message): (State, seq<Reply>) {
    var hash := FindItem(m.payload, TLV_HASH);
    var cleared := st.(active := false, next := 0, sha256 := Zeros(32));
    if hash.Some? && |hash.value| != 32 then (cleared, [Fail])
    else
      var ready := if hash.Some? then cleared.(sha256 := hash.value) else cleared;
      if !m.env.partition || !m.env.begin then (ready, [Fail])
      else (ready.(active := true, flash := [], hashOpen := true, hashed := [], log := []), [])
  }

  function OnChunk(st: State, m: Message): (State, seq<Reply>) {
    if !st.active then (st, [])
    else if ChunkIndex(m.payload) != st.next then (st, [Missing(st.next)])
    else
      match FindItem(m.payload, TLV_CHUNK_DATA)
      case None => (st, [])
      case Some(data) =>
        if !m.env.write then (st.(active := false), [Fail])
        else
          (st.(flash := st.flash + data,
               hashed := if st.hashOpen then st.hashed + data else st.hashed,
               next := (st.next + 1) % 0x1_0000,
               log := st.log + [Written(st.next, data)]), [])
  }

  /** `computed` is what the hash operation delivers. */
  function OnComplete(st: State, m: Message, computed: Bytes): (State, seq<Reply>) {
    if !st.active then (st, [])
    else
      var closed := st.(hashOpen := false);
      if computed != st.sha256 || !m.env.end then (closed.(active := false), [Fail])
      else (closed, [Verify])
  }

  function OnInstall(st: State, m: Message): (State, seq<Reply>) {
    (st, if m.env.boot then [Reboot] else [Fail])
  }

  function Step(st: State, m: Message, computed: Bytes): (State, seq<Reply>) {
    match m.action
    case Begin => OnBegin(st, m)
    case Chunk => OnChunk(st, m)
    case Complete => OnComplete(st, m, computed)
    case Install => OnInstall(st, m)
    case OtherAction => (st, [])
  }

  // ---------------------------------------------------------------- the service

  class OtaService {
    var active: bool
    var nextExpectedChunk: nat
    var sha256: Bytes
    var flash: Bytes
    var hashOpen: bool
    ghost var hashed: Bytes
    ghost var log: seq<Written>

    ghost function View(): State
      reads this
    {
      State(active, nextExpectedChunk, sha256, flash, hashOpen, hashed, log)
    }

    constructor ()
      ensures View() == Off()
    {
      active, nextExpectedChunk, sha256 := false, 0, Zeros(32);
      flash, hashOpen, hashed, log := [], false, [], [];
    }

    /** ykp_tlv_find. */
    method FindInPayload(payload: Bytes, key: Byte) returns (r: Option<Bytes>)
      requires |payload| <= UINT16_MAX
      ensures r == FindItem(payload, key)
    {
      var found := Find(payload, key);
      match found
      case Found(start, end) => r := if start <= end <= |payload| then Some(payload[start..end]) else None;
      case NotFound => r := None;
      case Outside => r := None;
      case Wrapped => r := None;
    }

    /** ota_service_handle. */
    method Handle(m: Message, computed: Bytes) returns (replies: seq<Reply>)
      requires |m.payload| <= UINT16_MAX
      modifies this
      ensures (View(), replies) == Step(old(View()), m, computed)
    {
      hide FindItem, ChunkIndex;
      match m.action
      case Begin => replies := HandleBegin(m);
      case Chunk => replies := HandleChunk(m);
      case Complete =>
        if !active {
          return [];
        }
        hashOpen := false;
        if computed != sha256 {
          active := false;
          return [Fail];
        }
        if !m.env.end {
          active := false;
          return [Fail];
        }
        return [Verify];
      case Install =>
        if !m.env.boot {
          return [Fail];
        }
        return [Reboot];
      case OtherAction => return [];
    }

    method HandleBegin(m: Message) returns (replies: seq<Reply>)
      requires |m.payload| <= UINT16_MAX
      modifies this
      ensures (View(), replies) == OnBegin(old(View()), m)
    {
      hide FindItem;
      active, nextExpectedChunk, sha256 := false, 0, Zeros(32);
      var hash := FindInPayload(m.payload, TLV_HASH);
      if hash.Some? {
        if |hash.value| != 32 {
          return [Fail];
        }
        sha256 := hash.value;
      }
      if !m.env.partition {
        return [Fail];
      }
      if !m.env.begin {
        return [Fail];
      }
      flash, hashOpen := [], true;
      hashed, log := [], [];
      active := true;
      nextExpectedChunk := 0;
      return [];
    }

    method HandleChunk(m: Message) returns (replies: seq<Reply>)
      requires |m.payload| <= UINT16_MAX
      modifies this
      ensures (View(), replies) == OnChunk(old(View()), m)
    {
      hide FindItem, ReadUint;
      if !active {
        return [];
      }
      var chunkIndex := 0;
      var item := FindInPayload(m.payload, TLV_CHUNK_INDEX);
      if item.Some? {
        var n := ReadUint(item.value, 2);
        if n.Some? {
          chunkIndex := n.value;
        }
      }
      if chunkIndex != nextExpectedChunk {
        return [Missing(nextExpectedChunk)];
      }
      var data := FindInPayload(m.payload, TLV_CHUNK_DATA);
      if data.Some? {
        if !m.env.write {
          active := false;
          return [Fail];
        }
        flash := flash + data.value;
        if hashOpen {
          hashed := hashed + data.value;
        }
        log := log + [Written(nextExpectedChunk, data.value)];
        nextExpectedChunk := (nextExpectedChunk + 1) % 0x1_0000;
      }
      return [];
    }
  }

  // ---------------------------------------------------------------- runs

  /** What the hash operation delivers to a COMPLETE. */
  function Computed(st: State, m: Message, hash: Bytes -> Bytes): Bytes {
    if st.hashOpen then hash(st.hashed) else m.env.stack
  }

  /** The state after a list of messages; `hash` is SHA-256. */
  function Run(start: State, ms: seq<Message>, hash: Bytes -> Bytes): State {
    if ms == [] then start
    else
      var st := Run(start, ms[..|ms| - 1], hash);
      Step(st, ms[|ms| - 1], Computed(st, ms[|ms| - 1], hash)).0
  }

  /** An update has begun and nothing but chunks and unknown messages has come since. */
  predicate OnlyChunks(ms: seq<Message>) {
    forall i :: 0 <= i < |ms| ==> ms[i].action == Chunk || ms[i].action == OtherAction
  }

  function Image(log: seq<Written>): Bytes {
    if log == [] then [] else Image(log[..|log| - 1]) + log[|log| - 1].data
  }

  /** The flash image is the hash input and the chunks written, in the order 0, 1, 2, ... */
  ghost predicate Assembled(st: State) {
    && st.flash == st.hashed == Image(st.log)
    && st.next == |st.log| % 0x1_0000
    && forall k :: 0 <= k < |st.log| ==> st.log[k].index == k % 0x1_0000
  }

  lemma ChunkAssembles(st: State, m: Message)
    requires Assembled(st) && (st.active ==> st.hashOpen)
    ensures Assembled(OnChunk(st, m).0) && (OnChunk(st, m).0.active ==> OnChunk(st, m).0.hashOpen)
    ensures st.log <= OnChunk(st, m).0.log
  {
    hide FindItem, ChunkIndex;
    var t := OnChunk(st, m).0;
    if t.log != st.log {
      assert t.log[..|t.log| - 1] == st.log;
    }
  }

  lemma {:induction false} RunAssembles(begun: State, ms: seq<Message>, hash: Bytes -> Bytes)
    requires begun.active && begun.hashOpen && begun.next == 0 && begun.flash == begun.hashed == [] && begun.log == []
    requires OnlyChunks(ms)
    ensures var st := Run(begun, ms, hash);
            Assembled(st) && (st.active ==> st.hashOpen) && st.sha256 == begun.sha256
  {
    hide FindItem, ChunkIndex;
    if ms != [] {
      var before := ms[..|ms| - 1];
      assert forall i :: 0 <= i < |before| ==> before[i] == ms[i];
      RunAssembles(begun, before, hash);
      ChunkAssembles(Run(begun, before, hash), ms[|ms| - 1]);
    }
  }

  /**
    From an activating BEGIN to the first COMPLETE: flash, hash input and the chunks in order are one
    and the same, and COMPLETE answers VERIFY only if their hash is the announced one.
   */
  lemma UpdateIsVerified(st: State, begin: Message, ms: seq<Message>, complete: Message, hash: Bytes -> Bytes)
    requires begin.action == Begin && OnBegin(st, begin).0.active
    requires OnlyChunks(ms) && complete.action == Complete
    ensures var begun := OnBegin(st, begin).0;
            var done := Run(begun, ms, hash);
            var replies := Step(done, complete, Computed(done, complete, hash)).1;
            && Assembled(done)
            && (replies == [Verify] <==> done.active && hash(done.flash) == begun.sha256 && complete.env.end)
  {
    hide FindItem, ChunkIndex;
    RunAssembles(OnBegin(st, begin).0, ms, hash);
  }

  /** A message that carries the wrong data, or data of the wrong chunk, for the image `chunks`. */
  predicate FromImage(m: Message, chunks: seq<Bytes>) {
    m.action == Chunk ==>
      match FindItem(m.payload, TLV_CHUNK_DATA)
      case None => true
      case Some(data) => ChunkIndex(m.payload) < |chunks| && data == chunks[ChunkIndex(m.payload)]
  }

  lemma ChunkOfImage(st: State, m: Message, chunks: seq<Bytes>)
    requires Assembled(st) && |st.log| <= |chunks| < 0x1_0000 && st.flash == Joined(chunks[..|st.log|])
    requires FromImage(m, chunks) && (m.action == Chunk || m.action == OtherAction)
    ensures var t := Step(st, m, []).0;
            |t.log| <= |chunks| && t.flash == Joined(chunks[..|t.log|])
  {
    hide FindItem, ChunkIndex, Image;
    var n := |st.log|;
    if n < |chunks| {
      assert chunks[..n + 1][..n] == chunks[..n];
    }
  }

  /** However the chunks of one image arrive, flash holds an initial run of them. */
  lemma {:induction false} FlashIsPrefixOfImage(begun: State, ms: seq<Message>, hash: Bytes -> Bytes,
      chunks: seq<Bytes>)
    requires begun.active && begun.hashOpen && begun.next == 0 && begun.flash == begun.hashed == [] && begun.log == []
    requires OnlyChunks(ms) && |chunks| < 0x1_0000 && forall i :: 0 <= i < |ms| ==> FromImage(ms[i], chunks)
    ensures var st := Run(begun, ms, hash);
            |st.log| <= |chunks| && st.flash == Joined(chunks[..|st.log|])
  {
    hide FindItem, ChunkIndex;
    if ms == [] {
      assert chunks[..0] == [];
    } else {
      var last := |ms| - 1;
      var before := ms[..last];
      assert forall i :: 0 <= i < |before| ==> before[i] == ms[i];
      FlashIsPrefixOfImage(begun, before, hash, chunks);
      RunAssembles(begun, before, hash);
      ChunkOfImage(Run(begun, before, hash), ms[last], chunks);
    }
  }

  // ---------------------------------------------------------------- when the whole image is there

  /** A chunk message for index `k` that has data. */
  predicate Carries(m: Message, k: nat) {
    m.action == Chunk && ChunkIndex(m.payload) == k && FindItem(m.payload, TLV_CHUNK_DATA).Some?
  }

  /** Among the messages, chunks 0, 1, ..., n - 1 occur in this order, at the places `at`. */
  predicate OccurAt(ms: seq<Message>, at: seq<nat>) {
    && (forall k :: 0 <= k < |at| ==> at[k] < |ms| && Carries(ms[at[k]], k))
    && (forall k, l :: 0 <= k < l < |at| ==> at[k] < at[l])
  }

  ghost predicate InOrder(ms: seq<Message>, n: nat) {
    exists at: seq<nat> :: |at| == n && OccurAt(ms, at)
  }

  predicate AllWritten(ms: seq<Message>) {
    forall i :: 0 <= i < |ms| ==> ms[i].env.write
  }

  lemma StaysActive(st: State, m: Message)
    requires st.active && m.env.write && (m.action == Chunk || m.action == OtherAction)
    requires st.next == |st.log| < 0x1_0000
    ensures var t := Step(st, m, []).0;
            t.active && |t.log| == |st.log| + if Carries(m, |st.log|) then 1 else 0
  {
    hide FindItem, ChunkIndex;
  }

  /** With one message more the chunks occur as before, or the message is the last of them. */
  lemma OneMessageMore(ms: seq<Message>, n: nat)
    requires ms != []
    ensures var last := |ms| - 1;
            InOrder(ms, n) <==>
            InOrder(ms[..last], n) || (n > 0 && InOrder(ms[..last], n - 1) && Carries(ms[last], n - 1))
  {
    hide Carries;
    var last, before := |ms| - 1, ms[..|ms| - 1];
    if InOrder(ms, n) {
      var at: seq<nat> :| |at| == n && OccurAt(ms, at);
      if n > 0 && at[n - 1] == last {
        assert OccurAt(before, at[..n - 1]);
      } else {
        assert OccurAt(before, at);
      }
    }
    if InOrder(before, n) {
      var at: seq<nat> :| |at| == n && OccurAt(before, at);
      assert OccurAt(ms, at);
    }
    if n > 0 && InOrder(before, n - 1) && Carries(ms[last], n - 1) {
      var at: seq<nat> :| |at| == n - 1 && OccurAt(before, at);
      assert OccurAt(ms, at + [last]);
    }
  }

  lemma {:induction false} FewerInOrder(ms: seq<Message>, n: nat)
    requires InOrder(ms, n) && n > 0
    ensures InOrder(ms, n - 1)
  {
    var at: seq<nat> :| |at| == n && OccurAt(ms, at);
    assert OccurAt(ms, at[..n - 1]);
  }

  /**
    When every write succeeds, the first `n` chunks of an image have been written exactly if
    they have arrived in their order, whatever else arrived in between.
   */
  lemma {:induction false} ChunksWritten(begun: State, ms: seq<Message>, hash: Bytes -> Bytes, chunks: seq<Bytes>,
      n: nat)
    requires begun.active && begun.hashOpen && begun.next == 0 && begun.flash == begun.hashed == [] && begun.log == []
    requires OnlyChunks(ms) && AllWritten(ms) && |chunks| < 0x1_0000
    requires forall i :: 0 <= i < |ms| ==> FromImage(ms[i], chunks)
    ensures Run(begun, ms, hash).active
    ensures |Run(begun, ms, hash).log| >= n <==> InOrder(ms, n)
    decreases |ms|
  {
    hide FindItem, ChunkIndex, InOrder, Carries, OnChunk;
    if ms == [] {
      NoneInOrder(n);
    } else {
      var last := |ms| - 1;
      var before := ms[..last];
      assert forall i :: 0 <= i < |before| ==> before[i] == ms[i];
      ChunksWritten(begun, before, hash, chunks, n);
      if n > 0 {
        ChunksWritten(begun, before, hash, chunks, n - 1);
        if InOrder(before, n) {
          FewerInOrder(before, n);
        }
      }
      var st := Run(begun, before, hash);
      RunAssembles(begun, before, hash);
      FlashIsPrefixOfImage(begun, before, hash, chunks);
      StaysActive(st, ms[last]);
      ChunkStep(st, ms[last], hash);
      OneMessageMore(ms, n);
    }
  }

  lemma ChunkStep(st: State, m: Message, hash: Bytes -> Bytes)
    requires m.action == Chunk || m.action == OtherAction
    ensures Step(st, m, Computed(st, m, hash)) == Step(st, m, [])
  {
  }

  lemma NoneInOrder(n: nat)
    ensures InOrder([], n) <==> n == 0
  {
    if n == 0 {
      assert OccurAt([], []);
    } else {
      forall at: seq<nat> | |at| == n ensures !OccurAt([], at) {
        assert !(at[0] < 0);
      }
    }
  }

  /** The whole image is in flash exactly if its chunks have arrived in order. */
  lemma WholeImage(begun: State, ms: seq<Message>, hash: Bytes -> Bytes, chunks: seq<Bytes>)
    requires begun.active && begun.hashOpen && begun.next == 0 && begun.flash == begun.hashed == [] && begun.log == []
    requires OnlyChunks(ms) && AllWritten(ms) && |chunks| < 0x1_0000
    requires forall i :: 0 <= i < |ms| ==> FromImage(ms[i], chunks)
    ensures InOrder(ms, |chunks|) <==> |Run(begun, ms, hash).log| == |chunks|
    ensures InOrder(ms, |chunks|) ==> Run(begun, ms, hash).flash == Joined(chunks)
  {
    hide Run, InOrder, Joined;
    ChunksWritten(begun, ms, hash, chunks, |chunks|);
    FlashIsPrefixOfImage(begun, ms, hash, chunks);
    assert chunks[..|chunks|] == chunks;
  }

  // ---------------------------------------------------------------- after the update

  /** A BEGIN that starts an update, in whatever state it comes. */
  predicate Starts(m: Message) {
    m.action == Begin && OnBegin(Off(), m).0.active
  }

  predicate NoneStarts(ms: seq<Message>) {
    forall i :: 0 <= i < |ms| ==> !Starts(ms[i])
  }

  /** A chunk that is written, where `st` is the state after a good COMPLETE. */
  predicate Adds(m: Message, st: State) {
    Carries(m, st.next) && m.env.write
  }

  /** A message that ends the update: a failed write, a COMPLETE that fails, a BEGIN that does not start another one. */
  predicate Ends(m: Message, st: State) {
    match m.action
    case Begin => true
    case Chunk => Carries(m, st.next) && !m.env.write
    case Complete => m.env.stack != st.sha256 || !m.env.end
    case _ => false
  }

  predicate EndsIn(ms: seq<Message>, st: State) {
    exists i :: 0 <= i < |ms| && Ends(ms[i], st)
  }

  /** Some chunk is written before the update ends. */
  predicate Grows(ms: seq<Message>, st: State) {
    exists i :: 0 <= i < |ms| && Adds(ms[i], st) && !EndsIn(ms[..i], st)
  }

  /** What is left of the state after a good COMPLETE. */
  predicate Left(done: State, ms: seq<Message>, st: State) {
    if Grows(ms, done) then |st.flash| > |done.flash|
    else if EndsIn(ms, done) then !st.active && st.flash == done.flash
    else st == done
  }

  lemma OneMore(ms: seq<Message>, st: State)
    requires ms != []
    ensures var last := |ms| - 1;
            && (EndsIn(ms, st) <==> EndsIn(ms[..last], st) || Ends(ms[last], st))
            && (Grows(ms, st) <==> Grows(ms[..last], st) || (Adds(ms[last], st) && !EndsIn(ms[..last], st)))
  {
    hide Ends, Adds;
    var last := |ms| - 1;
    assert forall i :: 0 <= i < last ==> ms[..last][i] == ms[i] && ms[..last][..i] == ms[..i];
  }

  lemma StepOn(done: State, st: State, m: Message, computed: Bytes)
    requires done.active && !done.hashOpen && !Starts(m) && computed == m.env.stack
    ensures st == done ==>
              var t := Step(st, m, computed).0;
              if Adds(m, done) then |t.flash| > |st.flash|
              else if Ends(m, done) then !t.active && t.flash == st.flash
              else t == st
    ensures |Step(st, m, computed).0.flash| >= |st.flash|
    ensures !st.active ==> Step(st, m, computed).0.flash == st.flash && !Step(st, m, computed).0.active
  {
    hide FindItem, ChunkIndex;
  }

  lemma ClosedStep(st: State, m: Message, computed: Bytes)
    requires !st.hashOpen && !Starts(m)
    ensures !Step(st, m, computed).0.hashOpen
  {
    hide FindItem, ChunkIndex;
  }

  lemma {:induction false} AfterVerify(done: State, ms: seq<Message>, hash: Bytes -> Bytes)
    requires done.active && !done.hashOpen && NoneStarts(ms)
    ensures Left(done, ms, Run(done, ms, hash)) && !Run(done, ms, hash).hashOpen
  {
    if ms != [] {
      hide Starts, Step, Ends, Adds, EndsIn, Grows;
      var last := |ms| - 1;
      assert forall i :: 0 <= i < last ==> ms[..last][i] == ms[i];
      AfterVerify(done, ms[..last], hash);
      var st := Run(done, ms[..last], hash);
      OneMore(ms, done);
      StepOn(done, st, ms[last], ms[last].env.stack);
      ClosedStep(st, ms[last], ms[last].env.stack);
    } else {
      assert !EndsIn(ms, done) && !Grows(ms, done);
    }
  }

  /**
    A good COMPLETE leaves the update active with its hash closed. Until the next update
    starts, the flash is still what was verified exactly if no chunk with the next index
    is written before the update ends.
   */
  lemma FlashKeptExactly(done: State, ms: seq<Message>, hash: Bytes -> Bytes)
    requires done.active && !done.hashOpen && NoneStarts(ms)
    ensures Run(done, ms, hash).flash == done.flash <==> !Grows(ms, done)
  {
    hide Run;
    AfterVerify(done, ms, hash);
  }

  /** With chunks only, and writes that succeed, that is if none of them has the next index. */
  lemma LateChunksExactly(done: State, ms: seq<Message>, hash: Bytes -> Bytes)
    requires done.active && !done.hashOpen && OnlyChunks(ms) && AllWritten(ms)
    ensures Run(done, ms, hash).flash == done.flash <==> forall i :: 0 <= i < |ms| ==> !Carries(ms[i], done.next)
  {
    hide Run, Carries;
    FlashKeptExactly(done, ms, hash);
    assert !EndsIn(ms, done);
    assert forall i :: 0 <= i <= |ms| ==> !EndsIn(ms[..i], done);
  }

  // ---------------------------------------------------------------- what INSTALL boots

  lemma {:induction false} RunAppend(start: State, a: seq<Message>, b: seq<Message>, hash: Bytes -> Bytes)
    ensures Run(start, a + b, hash) == Run(Run(start, a, hash), b, hash)
    decreases |b|
  {
    if b == [] {
      assert a + b == a;
    } else {
      var last := |b| - 1;
      assert (a + b)[..|a + b| - 1] == a + b[..last];
      RunAppend(start, a, b[..last], hash);
    }
  }

  /** In every run, an open hash operation has been fed exactly what is in flash. */
  lemma {:induction false} HashedIsFlash(ms: seq<Message>, hash: Bytes -> Bytes)
    ensures var st := Run(Off(), ms, hash);
            st.hashOpen ==> st.flash == st.hashed
  {
    hide FindItem, ChunkIndex;
    if ms != [] {
      HashedIsFlash(ms[..|ms| - 1], hash);
    }
  }

  /** Message `i` of a run is a COMPLETE that checks the hash and answers VERIFY, and no update has started since. */
  ghost predicate VerifiedAt(ms: seq<Message>, i: nat, hash: Bytes -> Bytes) {
    && i < |ms| && ms[i].action == Complete
    && (var st := Run(Off(), ms[..i], hash);
        st.hashOpen && Step(st, ms[i], hash(st.hashed)).1 == [Verify])
    && NoneStarts(ms[i + 1..])
  }

  /** The state in which message `i` finds the device. */
  function Before(ms: seq<Message>, i: nat, hash: Bytes -> Bytes): State
    requires i <= |ms|
  {
    Run(Off(), ms[..i], hash)
  }

  lemma VerifiedFacts(ms: seq<Message>, i: nat, hash: Bytes -> Bytes)
    requires VerifiedAt(ms, i, hash)
    ensures var st, done := Before(ms, i, hash), Before(ms, i + 1, hash);
            && hash(st.flash) == st.sha256 && done.flash == st.flash
            && done.active && !done.hashOpen && done.next == st.next && done.sha256 == st.sha256
            && Run(Off(), ms, hash) == Run(done, ms[i + 1..], hash)
            && NoneStarts(ms[i + 1..])
  {
    HashedIsFlash(ms[..i], hash);
    assert ms[..i + 1][..i] == ms[..i];
    assert ms == ms[..i + 1] + ms[i + 1..];
    RunAppend(Off(), ms[..i + 1], ms[i + 1..], hash);
  }

  lemma VerifiedOnce(ms: seq<Message>, i: nat, j: nat, hash: Bytes -> Bytes)
    requires VerifiedAt(ms, i, hash) && i < j
    ensures !VerifiedAt(ms, j, hash)
  {
    hide Run, Step, Starts;
    if j >= |ms| {
      return;
    }
    var ns := ms[..j];
    assert ns[..i] == ms[..i];
    var rest := ms[i + 1..];
    assert ns[i + 1..] == rest[..j - i - 1];
    VerifiedFacts(ns, i, hash);
    AfterVerify(Before(ns, i + 1, hash), ns[i + 1..], hash);
  }

  /** The flash holds an image whose hash was checked since the last update started, unchanged. */
  ghost predicate HoldsVerified(ms: seq<Message>, hash: Bytes -> Bytes) {
    exists i: nat :: VerifiedAt(ms, i, hash) && Run(Off(), ms, hash).flash == Before(ms, i, hash).flash
  }

  /**
    INSTALL asks for no verification: it answers REBOOT after every run. What it boots is a
    verified image exactly if a COMPLETE has verified one since the last update started,
    and no chunk was written after that before the update ended.
   */
  lemma InstallBootsVerifiedExactly(ms: seq<Message>, install: Message, hash: Bytes -> Bytes)
    requires install.action == Install && install.env.boot
    ensures var st := Run(Off(), ms, hash);
            var (t, replies) := Step(st, install, Computed(st, install, hash));
            replies == [Reboot] && t.flash == st.flash
    ensures HoldsVerified(ms, hash) <==>
            exists i: nat :: VerifiedAt(ms, i, hash) && !Grows(ms[i + 1..], Before(ms, i + 1, hash))
    ensures forall i: nat, j: nat :: VerifiedAt(ms, i, hash) && VerifiedAt(ms, j, hash) ==> i == j
  {
    hide Run, VerifiedAt, Starts;
    forall i: nat | VerifiedAt(ms, i, hash)
      ensures i < |ms| && (Run(Off(), ms, hash).flash == Before(ms, i, hash).flash <==>
                           !Grows(ms[i + 1..], Before(ms, i + 1, hash)))
    {
      InRange(ms, i, hash);
      VerifiedFacts(ms, i, hash);
      FlashKeptExactly(Before(ms, i + 1, hash), ms[i + 1..], hash);
    }
    forall i: nat, j: nat | VerifiedAt(ms, i, hash) && VerifiedAt(ms, j, hash) ensures i == j {
      if i < j {
        VerifiedOnce(ms, i, j, hash);
      } else if j < i {
        VerifiedOnce(ms, j, i, hash);
      }
    }
  }

  lemma InRange(ms: seq<Message>, i: nat, hash: Bytes -> Bytes)
    requires VerifiedAt(ms, i, hash)
    ensures i < |ms|
  {
  }

  // ---------------------------------------------------------------- the hash of a real BEGIN

  lemma FindItemInMap(ps: seq<Pair>, key: Byte)
    requires AllEncodable(ps) && |EncodeMap(ps)| <= UINT16_MAX
    ensures FindItem(EncodeMap(ps), key) ==
            if FirstItem(ps, key).None? then None else Some(EncodeItem(FirstItem(ps, key).value))
  {
    hide FindTlv, EncodeItem;
    FindsFirst(ps, key);
  }

  /**
    A BEGIN that announces a hash as a byte string gets through exactly if the hash has 30 bytes,
    because its head is counted in.
   */
  lemma HashMustHave30Bytes(st: State, ps: seq<Pair>, h: Bytes, env: Env)
    requires AllEncodable(ps) && |EncodeMap(ps)| <= UINT16_MAX && FirstItem(ps, TLV_HASH) == Some(Blob(h))
    ensures OnBegin(st, Message(Begin, EncodeMap(ps), env)).0.active <==> |h| == 30 && env.partition && env.begin
  {
    hide FindItem, FirstItem;
    FindItemInMap(ps, TLV_HASH);
  }

  /** So an update that announces a SHA-256 hash is refused. */
  lemma RealHashIsRefused(st: State, ps: seq<Pair>, h: Bytes, env: Env)
    requires AllEncodable(ps) && |EncodeMap(ps)| <= UINT16_MAX && FirstItem(ps, TLV_HASH) == Some(Blob(h)) && |h| == 32
    ensures var (t, replies) := OnBegin(st, Message(Begin, EncodeMap(ps), env));
            !t.active && replies == [Fail]
  {
    hide FindItem, FirstItem;
    FindItemInMap(ps, TLV_HASH);
  }

  /** What a chunk message adds to the flash is the encoded data item, so the head is written as well. */
  lemma HeadIsWritten(st: State, ps: seq<Pair>, data: Bytes, env: Env)
    requires AllEncodable(ps) && |EncodeMap(ps)| <= UINT16_MAX && st.active && env.write
    requires FirstItem(ps, TLV_CHUNK_INDEX) == Some(Uint(st.next)) && st.next <= UINT16_MAX
    requires FirstItem(ps, TLV_CHUNK_DATA) == Some(Blob(data))
    ensures var m := Message(Chunk, EncodeMap(ps), env);
            OnChunk(st, m).0.flash == st.flash + EncodeItem(Blob(data)) &&
                |OnChunk(st, m).0.flash| > |st.flash| + |data|
  {
    hide FindItem, FirstItem, ReadUint;
    FindItemInMap(ps, TLV_CHUNK_INDEX);
    FindItemInMap(ps, TLV_CHUNK_DATA);
    UintRoundTrip(st.next, 2);
    Widths();
  }
}
