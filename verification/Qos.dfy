/**
  The retry engine for packets that want an acknowledgement: 32 slots, exponential backoff, and a
  timer that runs exactly while a slot is in use.

  `State` is the engine as a value. Its last fields are bookkeeping that the code does not have: each
  accepted packet gets a serial number, `fate` says what became of it, `wire` lists every
  transmission, and `reference` is the moment from which the next tick is awaited. The class computes
  the functions on states; what every run keeps is proved about those.
 */
module Qos {
  import opened Basics
  import opened Powers

  const MAX_PENDING: nat := 32
  const MAX_RETRIES: nat := 3
  const DATA_SIZE: nat := 1400

  datatype Slot = Slot(
    id: nat, data: Bytes, qos: nat, retries: nat, nextRetry: int, sentTime: int,
    waitingPubrec: bool, waitingPubcomp: bool, active: bool)

  const EMPTY := Slot(0, [], 0, 0, 0, 0, false, false, false)

  datatype Fate = Pending | Acked | Completed | Expired

  /** A transmission, with the serial of its packet, or -1 for a packet that wants no acknowledgement. */
  datatype Transmission = Transmission(serial: int, data: Bytes)

  /** What is fixed when the engine starts: a send function, a timer, and at most `period` ms between ticks. */
  datatype Config = Config(sendFn: bool, timer: bool, period: nat)

  datatype State = State(
    slots: seq<Slot>, running: bool,
    serial: seq<nat>, accepted: seq<int>, fate: seq<Fate>, wire: seq<Transmission>,
    clock: int, reference: int, timely: bool)

  // ---------------------------------------------------------------- the operations on states

  /** QOS_RETRY_DELAY_MS << min(retries, 10). */
  function Backoff(retries: nat): nat {
    500 * Pow2(if retries < 10 then retries else 10)
  }

  function Clamp(data: Bytes): Bytes {
    if |data| < DATA_SIZE then data else data[..DATA_SIZE]
  }

  predicate AnyActive(slots: seq<Slot>) {
    exists i :: 0 <= i < |slots| && slots[i].active
  }

  predicate AwaitsAck(s: Slot, id: nat) {
    s.active && s.id == id && s.qos == 1
  }

  predicate AwaitsPubrec(s: Slot, id: nat) {
    s.active && s.id == id && s.qos == 2
  }

  predicate AwaitsPubcomp(s: Slot, id: nat) {
    AwaitsPubrec(s, id) && s.waitingPubcomp
  }

  function Initial(now: int): State {
    State(seq(MAX_PENDING, _ => EMPTY), false, seq(MAX_PENDING, _ => 0), seq(MAX_PENDING, _ => 0), [], [], now, now,
        true)
  }

  /** As many slots as there should be, and a serial and a time of acceptance for each. */
  predicate Shaped(st: State) {
    |st.slots| == |st.serial| == |st.accepted| == MAX_PENDING
  }

  function Sent(c: Config, st: State, serial: int, data: Bytes): State {
    if c.sendFn then st.(wire := st.wire + [Transmission(serial, data)]) else st
  }

  /** Slot `i` is freed, its packet meets `f`, and the timer stops if no slot is left in use. */
  function Freed(c: Config, st: State, i: nat, f: Fate): State
    requires Shaped(st) && i < MAX_PENDING
  {
    var slots := st.slots[i := st.slots[i].(active := false)];
    st.(slots := slots,
        fate := if st.serial[i] < |st.fate| then st.fate[st.serial[i] := f] else st.fate,
        running := st.running && (AnyActive(slots) || !c.timer))
  }

  function FirstFree(slots: seq<Slot>): (k: nat)
    ensures k <= |slots| && (k < |slots| ==> !slots[k].active) && forall i :: 0 <= i < k ==> slots[i].active
  {
    if slots == [] || !slots[0].active then 0 else 1 + FirstFree(slots[1..])
  }

  /** A packet is accepted into slot `i`. */
  function Filled(c: Config, st: State, i: nat, s: Slot, data: Bytes, now: int): State
    requires Shaped(st) && i < MAX_PENDING
  {
    var k := |st.fate|;
    Sent(c, st, k, data).(
      slots := st.slots[i := s], serial := st.serial[i := k], accepted := st.accepted[i := now],
      fate := st.fate + [Pending], running := st.running || c.timer,
      reference := if AnyActive(st.slots) then st.reference else now)
  }

  function Enqueued(c: Config, st: State, id: nat, data: Bytes, qos: nat, now: int, sentAt: int): (State, bool)
    requires Shaped(st)
  {
    var k, later := FirstFree(st.slots), st.(clock := sentAt);
    if data == [] then (later, false)
    else if qos == 0 then (Sent(c, later, -1, data), true)
    else if k == MAX_PENDING then (later, false)
    else (Filled(c, later, k, Slot(id, Clamp(data), qos, 0, now, sentAt, qos == 2, false, true), data, now), true)
  }

  function FirstAwaiting(slots: seq<Slot>, id: nat): (k: nat)
    ensures k <= |slots| && (k < |slots| ==> AwaitsAck(slots[k], id)) && forall i :: 0 <= i < k ==>
              !AwaitsAck(slots[i], id)
  {
    if slots == [] || AwaitsAck(slots[0], id) then 0 else 1 + FirstAwaiting(slots[1..], id)
  }

  function AckReceived(c: Config, st: State, id: nat, now: int): State
    requires Shaped(st)
  {
    var k, later := FirstAwaiting(st.slots, id), st.(clock := now);
    if k == MAX_PENDING then later else Freed(c, later, k, Acked)
  }

  /** PUBREC, for the slots from `i` on. */
  function PubrecFrom(st: State, id: nat, i: nat): (r: State)
    requires Shaped(st) && i <= MAX_PENDING
    ensures Shaped(r)
    decreases |st.slots| - i
  {
    if i == MAX_PENDING then st
    else
      var s := st.slots[i];
      PubrecFrom(if AwaitsPubrec(s, id) then
          st.(slots := st.slots[i := s.(waitingPubrec := false, waitingPubcomp := true)]) else st,
                 id, i + 1)
  }

  /** PUBCOMP, for the slots from `i` on. */
  function PubcompFrom(c: Config, st: State, id: nat, i: nat): (r: State)
    requires Shaped(st) && i <= MAX_PENDING
    ensures Shaped(r)
    decreases |st.slots| - i
  {
    if i == MAX_PENDING then st
    else PubcompFrom(c, if AwaitsPubcomp(st.slots[i], id) then Freed(c, st, i, Completed) else st, id, i + 1)
  }

  /** One slot at a tick: wait, give up, or transmit again. */
  function TickSlot(c: Config, st: State, i: nat, now: int): (r: State)
    requires Shaped(st) && i < MAX_PENDING
    ensures Shaped(r)
  {
    var s := st.slots[i];
    if !s.active || now < s.nextRetry then st
    else if s.retries >= MAX_RETRIES then Freed(c, st, i, Expired)
    else
      Sent(c, st, st.serial[i], s.data).(
        slots := st.slots[i := s.(retries := s.retries + 1, nextRetry := now + Backoff(s.retries + 1))])
  }

  function TickFrom(c: Config, st: State, now: int, i: nat): (r: State)
    requires Shaped(st) && i <= MAX_PENDING
    ensures Shaped(r)
    decreases |st.slots| - i
  {
    if i == MAX_PENDING then st else TickFrom(c, TickSlot(c, st, i, now), now, i + 1)
  }

  function Ticked(c: Config, st: State, now: int): (r: State)
    requires Shaped(st)
    ensures Shaped(r)
  {
    var t := TickFrom(c, st, now, 0);
    t.(clock := now, reference := now, timely := st.timely && now <= st.reference + c.period)
  }

  // ---------------------------------------------------------------- the engine

  class Engine {
    const slots: array<Slot>
    const config: Config
    var running: bool
    var lastRtt: nat

    ghost var serial: seq<nat>
    ghost var accepted: seq<int>
    ghost var fate: seq<Fate>
    ghost var wire: seq<Transmission>
    ghost var clock: int
    ghost var reference: int
    ghost var timely: bool

    ghost function View(): State
      reads this, slots
    {
      State(slots[..], running, serial, accepted, fate, wire, clock, reference, timely)
    }

    /** ykp_qos_init, and the timer handle that main stores in the engine. */
    constructor (config: Config, ghost now: int)
      ensures fresh(slots) && this.config == config && View() == Initial(now)
    {
      slots := new Slot[MAX_PENDING](_ => EMPTY);
      this.config, running, lastRtt := config, false, 45;
      serial, accepted, fate, wire := seq(MAX_PENDING, _ => 0), seq(MAX_PENDING, _ => 0), [], [];
      clock, reference, timely := now, now, true;
      new;
      assert slots[..] == seq(MAX_PENDING, _ => EMPTY);
    }

    /** send_fn, if there is one. */
    method Send(data: Bytes, ghost k: int)
      modifies this`wire
      ensures View() == Sent(config, old(View()), k, data)
    {
      if config.sendFn {
        wire := wire + [Transmission(k, data)];
      }
    }

    /** check_and_stop_timer. */
    method CheckAndStopTimer()
      modifies this`running
      ensures running == (old(running) && (AnyActive(slots[..]) || !config.timer))
    {
      var anyActive, i := false, 0;
      while i < slots.Length && !anyActive
        invariant 0 <= i <= slots.Length
        invariant anyActive ==> AnyActive(slots[..])
        invariant !anyActive ==> forall j :: 0 <= j < i ==> !slots[..][j].active
        decreases slots.Length - i, !anyActive
      {
        if slots[i].active {
          assert slots[..][i].active;
          anyActive := true;
        } else {
          i := i + 1;
        }
      }
      if !anyActive && config.timer {
        running := false;
      }
    }

    /** p->active = false, then check_and_stop_timer. */
    method Free(i: nat, ghost f: Fate)
      requires Shaped(View()) && i < MAX_PENDING
      modifies this`running, this`fate, slots
      ensures View() == Freed(config, old(View()), i, f)
    {
      slots[i] := slots[i].(active := false);
      if serial[i] < |fate| {
        fate := fate[serial[i] := f];
      }
      CheckAndStopTimer();
    }

    /** ykp_qos_enqueue; `now` and `sentAt` are its two readings of the clock. */
    method Enqueue(id: nat, data: Bytes, qos: nat, now: int, sentAt: int) returns (ok: bool)
      requires Shaped(View())
      modifies this`running, this`serial, this`accepted, this`fate, this`wire, this`clock, this`reference, slots
      ensures (View(), ok) == Enqueued(config, old(View()), id, data, qos, now, sentAt)
    {
      clock := sentAt;
      if data == [] {
        return false;
      }
      if qos == 0 {
        Send(data, -1);
        return true;
      }
      var i := 0;
      while i < MAX_PENDING && slots[i].active
        invariant 0 <= i <= MAX_PENDING
        invariant forall j :: 0 <= j < i ==> slots[..][j].active
      {
        i := i + 1;
      }
      FirstFreeIs(slots[..], i);
      if i == MAX_PENDING {
        return false;
      }
      ghost var k, wasIdle := |fate|, !AnyActive(slots[..]);
      slots[i] := Slot(id, if |data| < DATA_SIZE then data else data[..DATA_SIZE], qos, 0, now, sentAt, qos == 2,
          false, true);
      serial, accepted, fate := serial[i := k], accepted[i := now], fate + [Pending];
      Send(data, k);
      if config.timer {
        running := true;
      }
      if wasIdle {
        reference := now;
      }
      ok := true;
    }

    /** ykp_qos_ack. */
    method Ack(id: nat, now: int)
      requires Shaped(View())
      modifies this`running, this`fate, this`clock, this`lastRtt, slots
      ensures View() == AckReceived(config, old(View()), id, now)
    {
      clock := now;
      var i := 0;
      while i < MAX_PENDING && !AwaitsAck(slots[i], id)
        invariant 0 <= i <= MAX_PENDING
        invariant forall j :: 0 <= j < i ==> !AwaitsAck(slots[..][j], id)
      {
        i := i + 1;
      }
      FirstAwaitingIs(slots[..], id, i);
      if i == MAX_PENDING {
        return;
      }
      var rtt := now - slots[i].sentTime;
      Free(i, Acked);
      if 0 <= rtt < 10000 {
        lastRtt := rtt;
      }
    }

    /** ykp_qos_pubrec. */
    method Pubrec(id: nat)
      requires Shaped(View())
      modifies slots
      ensures View() == PubrecFrom(old(View()), id, 0)
    {
      var i := 0;
      while i < MAX_PENDING
        invariant 0 <= i <= MAX_PENDING && Shaped(View())
        invariant PubrecFrom(View(), id, i) == PubrecFrom(old(View()), id, 0)
      {
        ghost var before := View();
        if AwaitsPubrec(slots[i], id) {
          slots[i] := slots[i].(waitingPubrec := false, waitingPubcomp := true);
        }
        assert View().slots == if AwaitsPubrec(before.slots[i], id)
                                then before.slots[i := before.slots[i].(waitingPubrec := false, waitingPubcomp := true)]
                                else before.slots;
        i := i + 1;
      }
    }

    /** ykp_qos_pubcomp. */
    method Pubcomp(id: nat)
      requires Shaped(View())
      modifies this`running, this`fate, slots
      ensures View() == PubcompFrom(config, old(View()), id, 0)
    {
      hide Freed;
      var i := 0;
      while i < MAX_PENDING
        invariant 0 <= i <= MAX_PENDING && Shaped(View())
        invariant PubcompFrom(config, View(), id, i) == PubcompFrom(config, old(View()), id, 0)
      {
        FreedShaped(config, View(), i, Completed);
        if AwaitsPubcomp(slots[i], id) {
          Free(i, Completed);
        }
        i := i + 1;
      }
    }

    /** ykp_qos_tick. */
    method Tick(now: int)
      requires Shaped(View())
      modifies this`running, this`fate, this`wire, this`clock, this`reference, this`timely, slots
      ensures View() == Ticked(config, old(View()), now)
    {
      hide Freed, Sent, TickFrom, TickSlot;
      var i := 0;
      while i < MAX_PENDING
        invariant 0 <= i <= MAX_PENDING && Shaped(View())
        invariant TickFrom(config, View(), now, i) == TickFrom(config, old(View()), now, 0)
        invariant reference == old(reference) && timely == old(timely)
      {
        TickFromUnfolds(config, View(), now, i);
        RetrySlot(i, now);
        i := i + 1;
      }
      TickFromUnfolds(config, View(), now, i);
      clock, reference, timely := now, now, timely && now <= reference + config.period;
    }

    /** One turn of the loop of ykp_qos_tick. */
    method RetrySlot(i: nat, now: int)
      requires Shaped(View()) && i < MAX_PENDING
      modifies this`running, this`fate, this`wire, slots
      ensures View() == TickSlot(config, old(View()), i, now)
    {
      hide Freed;
      if !slots[i].active || now < slots[i].nextRetry {
        return;
      }
      if slots[i].retries >= MAX_RETRIES {
        Free(i, Expired);
        return;
      }
      ghost var before := View();
      Send(slots[i].data, serial[i]);
      slots[i] := slots[i].(retries := slots[i].retries + 1);
      slots[i] := slots[i].(nextRetry := now + Backoff(slots[i].retries));
      assert slots[..] == before.slots[i := slots[i]];
    }
  }

  lemma FreedShaped(c: Config, st: State, i: nat, f: Fate)
    requires Shaped(st) && i < MAX_PENDING
    ensures Shaped(Freed(c, st, i, f))
  {
  }

  lemma TickFromUnfolds(c: Config, st: State, now: int, i: nat)
    requires Shaped(st) && i <= MAX_PENDING
    ensures TickFrom(c, st, now, i) == if i == MAX_PENDING then st else TickFrom(c, TickSlot(c, st, i, now), now, i + 1)
  {
  }

  lemma FirstFreeIs(slots: seq<Slot>, k: nat)
    requires k <= |slots| && (k < |slots| ==> !slots[k].active) && forall i :: 0 <= i < k ==> slots[i].active
    ensures FirstFree(slots) == k
  {
  }

  lemma FirstAwaitingIs(slots: seq<Slot>, id: nat, k: nat)
    requires k <= |slots| && (k < |slots| ==> AwaitsAck(slots[k], id)) && forall i :: 0 <= i < k ==>
               !AwaitsAck(slots[i], id)
    ensures FirstAwaiting(slots, id) == k
  {
  }
}
