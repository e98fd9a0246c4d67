/**
  What every run of the retry engine keeps: every accepted packet is pending in one slot or has met
  one fate, is transmitted at most four times, and is freed in bounded time; a QoS 2 packet waits for
  exactly one of PUBREC and PUBCOMP; the timer runs exactly while a slot is in use.
 */
module QosRuns {
  import opened Basics
  import opened Powers
  import opened Qos

  function Sends(wire: seq<Transmission>, serial: int): nat {
    if wire == [] then 0 else Sends(wire[..|wire| - 1], serial) + if wire[|wire| - 1].serial == serial then 1 else 0
  }

  lemma SendsOneMore(wire: seq<Transmission>, t: Transmission)
    ensures forall s: int :: Sends(wire + [t], s) == Sends(wire, s) + if t.serial == s then 1 else 0
  {
    assert (wire + [t])[..|wire|] == wire;
  }

  /** How long after its acceptance a packet that was retried `r` times is next due, at most. */
  function Due(r: nat, period: nat): nat {
    r * period + 1000 * (Pow2(r) - 1)
  }

  // ---------------------------------------------------------------- what is kept

  /** Every accepted packet is pending in exactly one slot or has met a fate, and only those occupy slots. */
  ghost predicate Accounted(st: State) {
    && Shaped(st)
    && (forall i :: 0 <= i < MAX_PENDING && st.slots[i].active ==>
          st.serial[i] < |st.fate| && st.fate[st.serial[i]] == Pending)
    && (forall i, j :: 0 <= i < j < MAX_PENDING && st.slots[i].active && st.slots[j].active ==>
          st.serial[i] != st.serial[j])
    && (forall s :: 0 <= s < |st.fate| && st.fate[s] == Pending ==>
          exists i :: 0 <= i < MAX_PENDING && st.slots[i].active && st.serial[i] == s)
  }

  /** A pending packet was sent once and once more per retry, and no packet more than four times. */
  ghost predicate Transmitted(c: Config, st: State) {
    && Shaped(st)
    && (forall i :: 0 <= i < MAX_PENDING && st.slots[i].active ==>
          && st.slots[i].retries <= MAX_RETRIES
          && Sends(st.wire, st.serial[i]) == if c.sendFn then 1 + st.slots[i].retries else 0)
    && (forall s: int :: 0 <= s < |st.fate| ==> Sends(st.wire, s) <= 1 + MAX_RETRIES)
    && (forall s: int :: s >= |st.fate| ==> Sends(st.wire, s) == 0)
  }

  predicate PhaseOf(s: Slot) {
    s.active ==>
      && s.qos != 0
      && (s.qos == 2 ==> s.waitingPubrec != s.waitingPubcomp)
      && (s.qos != 2 ==> !s.waitingPubrec && !s.waitingPubcomp)
  }

  ghost predicate Phases(st: State) {
    forall i :: 0 <= i < |st.slots| ==> PhaseOf(st.slots[i])
  }

  ghost predicate TimerRuns(c: Config, st: State) {
    st.running == (c.timer && AnyActive(st.slots))
  }

  /** The slots from `lo` to `hi` are due not before `from` and not later than their retries allow. */
  ghost predicate OnTime(c: Config, st: State, lo: nat, hi: nat, from: int)
    requires Shaped(st) && hi <= MAX_PENDING
  {
    forall i :: lo <= i < hi && st.slots[i].active ==>
      from <= st.slots[i].nextRetry <= st.accepted[i] + Due(st.slots[i].retries, c.period)
  }

  ghost predicate Sound(c: Config, st: State) {
    Accounted(st) && Transmitted(c, st) && Phases(st) && TimerRuns(c, st)
  }

  ghost predicate Deadlines(c: Config, st: State) {
    && Shaped(st) && st.reference <= st.clock
    && (st.timely ==> OnTime(c, st, 0, MAX_PENDING, st.reference))
  }

  // ---------------------------------------------------------------- elementary steps

  lemma FreedKeeps(c: Config, st: State, i: nat, f: Fate)
    requires Sound(c, st) && i < MAX_PENDING && st.slots[i].active && f != Pending
    ensures Sound(c, Freed(c, st, i, f))
  {
    var t := Freed(c, st, i, f);
    forall s | 0 <= s < |t.fate| && t.fate[s] == Pending
      ensures exists j :: 0 <= j < MAX_PENDING && t.slots[j].active && t.serial[j] == s
    {
      var j :| 0 <= j < MAX_PENDING && st.slots[j].active && st.serial[j] == s;
      assert t.slots[j].active && t.serial[j] == s;
    }
  }

  lemma FilledKeeps(c: Config, st: State, i: nat, s: Slot, data: Bytes, now: int)
    requires Sound(c, st) && i < MAX_PENDING && !st.slots[i].active
    requires s.active && s.retries == 0 && PhaseOf(s)
    ensures Sound(c, Filled(c, st, i, s, data, now))
  {
    var t, k := Filled(c, st, i, s, data, now), |st.fate|;
    SendsOneMore(st.wire, Transmission(k, data));
    assert t.slots[i].active && t.serial[i] == k;
    forall s | 0 <= s < |t.fate| && t.fate[s] == Pending
      ensures exists j :: 0 <= j < MAX_PENDING && t.slots[j].active && t.serial[j] == s
    {
      if s < k {
        var j :| 0 <= j < MAX_PENDING && st.slots[j].active && st.serial[j] == s;
        assert t.slots[j].active && t.serial[j] == s;
      }
    }
  }

  lemma UnnumberedKeeps(c: Config, st: State, data: Bytes)
    requires Sound(c, st)
    ensures Sound(c, Sent(c, st, -1, data))
  {
    SendsOneMore(st.wire, Transmission(-1, data));
  }

  /** Replacing an active slot by another active slot, and adding to the wire. */
  lemma ReplacedKeeps(c: Config, st: State, i: nat, s: Slot, wire: seq<Transmission>)
    requires Sound(c, st) && i < MAX_PENDING && st.slots[i].active && s.active && PhaseOf(s)
    ensures var t := st.(slots := st.slots[i := s], wire := wire);
            Accounted(t) && Phases(t) && TimerRuns(c, t)
  {
    hide Transmitted;
    var t := st.(slots := st.slots[i := s], wire := wire);
    assert forall j :: 0 <= j < MAX_PENDING ==> t.slots[j].active == st.slots[j].active;
    assert t.slots[i].active;
    forall s | 0 <= s < |t.fate| && t.fate[s] == Pending
      ensures exists j :: 0 <= j < MAX_PENDING && t.slots[j].active && t.serial[j] == s
    {
      var j :| 0 <= j < MAX_PENDING && st.slots[j].active && st.serial[j] == s;
      assert t.slots[j].active && t.serial[j] == s;
    }
  }

  lemma RephasedKeeps(c: Config, st: State, i: nat, s: Slot)
    requires Sound(c, st) && i < MAX_PENDING && st.slots[i].active && s.active && s.retries == st.slots[i].retries &&
             PhaseOf(s)
    ensures Sound(c, st.(slots := st.slots[i := s]))
  {
    hide Accounted, Phases, TimerRuns, Sends;
    ReplacedKeeps(c, st, i, s, st.wire);
  }

  lemma RetriedKeeps(c: Config, st: State, i: nat, s: Slot, data: Bytes)
    requires Sound(c, st) && i < MAX_PENDING && st.slots[i].active && st.slots[i].retries < MAX_RETRIES
    requires s.active && s.retries == st.slots[i].retries + 1 && PhaseOf(s)
    ensures Sound(c, Sent(c, st, st.serial[i], data).(slots := st.slots[i := s]))
  {
    hide Phases, TimerRuns, Sends;
    var t := Sent(c, st, st.serial[i], data).(slots := st.slots[i := s]);
    ReplacedKeeps(c, st, i, s, t.wire);
    SendsOneMore(st.wire, Transmission(st.serial[i], data));
    assert Transmitted(c, t) by {
      hide Accounted;
      OwnSerial(st, i);
    }
  }

  /** No other slot in use has the serial of slot `i`. */
  lemma OwnSerial(st: State, i: nat)
    requires Accounted(st) && i < MAX_PENDING && st.slots[i].active
    ensures st.serial[i] < |st.fate|
    ensures forall j :: 0 <= j < MAX_PENDING && st.slots[j].active && j != i ==> st.serial[j] != st.serial[i]
  {
  }

  // ---------------------------------------------------------------- the operations

  lemma EnqueuedKeeps(c: Config, st: State, id: nat, data: Bytes, qos: nat, now: int, sentAt: int)
    requires Sound(c, st) && Deadlines(c, st) && st.clock <= now <= sentAt
    ensures var t := Enqueued(c, st, id, data, qos, now, sentAt).0;
            Sound(c, t) && Deadlines(c, t) && t.clock == sentAt
  {
    hide Sends, Due, Pow2, Sound;
    var later, k := st.(clock := sentAt), FirstFree(st.slots);
    SoundLater(c, st, sentAt);
    if data != [] && qos == 0 {
      UnnumberedKeeps(c, later, data);
    } else if data != [] && k < MAX_PENDING {
      var s := Slot(id, Clamp(data), qos, 0, now, sentAt, qos == 2, false, true);
      FilledKeeps(c, later, k, s, data, now);
      NothingDue(c.period);
    }
  }

  lemma NothingDue(period: nat)
    ensures Due(0, period) == 0
  {
  }

  lemma AckKeeps(c: Config, st: State, id: nat, now: int)
    requires Sound(c, st) && Deadlines(c, st) && st.clock <= now
    ensures var t := AckReceived(c, st, id, now);
            Sound(c, t) && Deadlines(c, t) && t.clock == now
  {
    hide Sends, Due, Sound;
    var k := FirstAwaiting(st.slots, id);
    SoundLater(c, st, now);
    if k < MAX_PENDING {
      FreedKeeps(c, st.(clock := now), k, Acked);
    }
  }

  lemma SoundLater(c: Config, st: State, now: int)
    requires Sound(c, st)
    ensures Sound(c, st.(clock := now))
  {
  }

  lemma {:induction false} PubrecKeeps(c: Config, st: State, id: nat, i: nat)
    requires Sound(c, st) && Deadlines(c, st) && i <= MAX_PENDING
    ensures var t := PubrecFrom(st, id, i);
            Sound(c, t) && Deadlines(c, t) && t.clock == st.clock
    decreases MAX_PENDING - i
  {
    hide Sends, Due, Accounted, Transmitted, TimerRuns;
    if i < MAX_PENDING {
      var s := st.slots[i];
      var t := if AwaitsPubrec(s, id) then
          st.(slots := st.slots[i := s.(waitingPubrec := false, waitingPubcomp := true)]) else st;
      if AwaitsPubrec(s, id) {
        RephasedKeeps(c, st, i, s.(waitingPubrec := false, waitingPubcomp := true));
      }
      PubrecKeeps(c, t, id, i + 1);
    }
  }

  lemma {:induction false} PubcompKeeps(c: Config, st: State, id: nat, i: nat)
    requires Sound(c, st) && Deadlines(c, st) && i <= MAX_PENDING
    ensures var t := PubcompFrom(c, st, id, i);
            Sound(c, t) && Deadlines(c, t) && t.clock == st.clock
    decreases MAX_PENDING - i
  {
    hide Sends, Due, Sound;
    if i < MAX_PENDING {
      var t := if AwaitsPubcomp(st.slots[i], id) then Freed(c, st, i, Completed) else st;
      if AwaitsPubcomp(st.slots[i], id) {
        FreedKeeps(c, st, i, Completed);
      }
      PubcompKeeps(c, t, id, i + 1);
    }
  }

  lemma BackoffAddsUp(r: nat, period: nat)
    requires r < MAX_RETRIES
    ensures Due(r, period) + period + Backoff(r + 1) == Due(r + 1, period)
  {
    assert (r + 1) * period == r * period + period;
  }

  lemma TickSlotKeeps(c: Config, st: State, i: nat, now: int)
    requires Sound(c, st) && i < MAX_PENDING
    ensures var t := TickSlot(c, st, i, now);
            Sound(c, t) && t.clock == st.clock && t.reference == st.reference && t.timely == st.timely &&
                t.accepted == st.accepted
  {
    hide Sends, Backoff, Sound;
    SlotIsSound(c, st, i);
    var s := st.slots[i];
    if !s.active || now < s.nextRetry {
    } else if s.retries >= MAX_RETRIES {
      FreedKeeps(c, st, i, Expired);
    } else {
      RetriedKeeps(c, st, i, s.(retries := s.retries + 1, nextRetry := now + Backoff(s.retries + 1)), s.data);
    }
  }

  lemma SlotIsSound(c: Config, st: State, i: nat)
    requires Sound(c, st) && i < MAX_PENDING
    ensures Shaped(st) && PhaseOf(st.slots[i]) && (st.slots[i].active ==> st.slots[i].retries <= MAX_RETRIES)
  {
  }

  /** A timely tick that comes to a slot leaves it due later than now, and within its allowance. */
  lemma TickSlotOnTime(c: Config, st: State, i: nat, now: int, from: int)
    requires Shaped(st) && i < MAX_PENDING && now <= from + c.period && OnTime(c, st, i, i + 1, from)
    requires st.slots[i].active ==> st.slots[i].retries <= MAX_RETRIES
    ensures OnTime(c, TickSlot(c, st, i, now), i, i + 1, now)
  {
    var s := st.slots[i];
    if s.active && now >= s.nextRetry && s.retries < MAX_RETRIES {
      BackoffAddsUp(s.retries, c.period);
    }
  }

  lemma TickSlotElsewhere(c: Config, st: State, i: nat, now: int, j: nat)
    requires Shaped(st) && i < MAX_PENDING && j < MAX_PENDING && i != j
    ensures TickSlot(c, st, i, now).slots[j] == st.slots[j]
  {
  }

  lemma {:induction false} TickFromKeeps(c: Config, st: State, now: int, i: nat, from: int)
    requires Sound(c, st) && i <= MAX_PENDING
    requires now <= from + c.period ==> Shaped(st) && OnTime(c, st, 0, i, now)
    requires now <= from + c.period ==> OnTime(c, st, i, MAX_PENDING, from)
    ensures var t := TickFrom(c, st, now, i);
            && Sound(c, t) && t.reference == st.reference && t.timely == st.timely
            && (now <= from + c.period ==> OnTime(c, t, 0, MAX_PENDING, now))
    decreases MAX_PENDING - i
  {
    hide Sound, TickSlot, Due, Backoff, AnyActive;
    if i < MAX_PENDING {
      SlotIsSound(c, st, i);
      var t := TickSlot(c, st, i, now);
      TickSlotKeeps(c, st, i, now);
      if now <= from + c.period {
        TickSlotOnTime(c, st, i, now, from);
        forall j | 0 <= j < MAX_PENDING && j != i
          ensures t.slots[j] == st.slots[j]
        {
          TickSlotElsewhere(c, st, i, now, j);
        }
      }
      TickFromKeeps(c, t, now, i + 1, from);
    }
  }

  lemma TickedKeeps(c: Config, st: State, now: int)
    requires Sound(c, st) && Deadlines(c, st) && st.clock <= now
    ensures Sound(c, Ticked(c, st, now)) && Deadlines(c, Ticked(c, st, now)) && Ticked(c, st, now).clock == now
  {
    hide Sends, Due, TickFrom, AnyActive;
    if st.timely && now <= st.reference + c.period {
      TickFromKeeps(c, st, now, 0, st.reference);
    } else {
      TickFromKeeps(c, st, now, 0, now - c.period - 1);
    }
  }

  // ---------------------------------------------------------------- runs

  datatype Operation =
    | Enqueue(id: nat, data: Bytes, qos: nat, now: int, sentAt: int)
    | Ack(id: nat, now: int)
    | Pubrec(id: nat)
    | Pubcomp(id: nat)
    | Tick(now: int)

  function Apply(c: Config, st: State, op: Operation): State
    requires Shaped(st)
  {
    match op
    case Enqueue(id, data, qos, now, sentAt) => Enqueued(c, st, id, data, qos, now, sentAt).0
    case Ack(id, now) => AckReceived(c, st, id, now)
    case Pubrec(id) => PubrecFrom(st, id, 0)
    case Pubcomp(id) => PubcompFrom(c, st, id, 0)
    case Tick(now) => Ticked(c, st, now)
  }

  /** The clock does not go back. */
  predicate Later(clock: int, op: Operation) {
    match op
    case Enqueue(_, _, _, now, sentAt) => clock <= now <= sentAt
    case Ack(_, now) => clock <= now
    case Tick(now) => clock <= now
    case _ => true
  }

  lemma ApplyShaped(c: Config, st: State, op: Operation)
    requires Shaped(st)
    ensures Shaped(Apply(c, st, op))
  {
  }

  function Run(c: Config, start: int, ops: seq<Operation>): (st: State)
    ensures Shaped(st)
  {
    if ops == [] then Initial(start)
    else
      var before, op := Run(c, start, ops[..|ops| - 1]), ops[|ops| - 1];
      ApplyShaped(c, before, op);
      Apply(c, before, op)
  }

  predicate ClockNeverGoesBack(c: Config, start: int, ops: seq<Operation>) {
    forall i :: 0 <= i < |ops| ==> Later(Run(c, start, ops[..i]).clock, ops[i])
  }

  lemma InitialSound(c: Config, start: int)
    ensures Sound(c, Initial(start)) && Deadlines(c, Initial(start))
  {
  }

  lemma ApplyKeeps(c: Config, st: State, op: Operation)
    requires Shaped(st) && Sound(c, st) && Deadlines(c, st) && Later(st.clock, op)
    ensures Sound(c, Apply(c, st, op)) && Deadlines(c, Apply(c, st, op))
  {
    hide Sound, Deadlines;
    match op
    case Enqueue(id, data, qos, now, sentAt) => EnqueuedKeeps(c, st, id, data, qos, now, sentAt);
    case Ack(id, now) => AckKeeps(c, st, id, now);
    case Pubrec(id) => PubrecKeeps(c, st, id, 0);
    case Pubcomp(id) => PubcompKeeps(c, st, id, 0);
    case Tick(now) => TickedKeeps(c, st, now);
  }

  lemma {:induction false} RunKeeps(c: Config, start: int, ops: seq<Operation>)
    requires ClockNeverGoesBack(c, start, ops)
    ensures Sound(c, Run(c, start, ops)) && Deadlines(c, Run(c, start, ops))
  {
    hide Sound, Deadlines;
    if ops == [] {
      InitialSound(c, start);
    } else {
      var last := |ops| - 1;
      var before := ops[..last];
      assert forall i :: 0 <= i < last ==> before[..i] == ops[..i] && before[i] == ops[i];
      RunKeeps(c, start, before);
      ApplyKeeps(c, Run(c, start, before), ops[last]);
    }
  }

  // ---------------------------------------------------------------- the guarantees

  ghost function Fates(st: State, f: Fate): set<nat> {
    set s: nat | s < |st.fate| && st.fate[s] == f
  }

  ghost function ActiveSlots(st: State): set<nat> {
    set i: nat | i < |st.slots| && st.slots[i].active
  }

  /** A one-to-one function between two finite sets makes them equally large. */
  lemma {:induction false} SameSize(a: set<nat>, b: set<nat>, f: seq<nat>)
    requires forall i :: i in a ==> i < |f| && f[i] in b
    requires forall i, j :: i in a && j in a && i != j ==> f[i] != f[j]
    requires forall s :: s in b ==> exists i :: i in a && f[i] == s
    ensures |a| == |b|
    decreases a
  {
    if a == {} {
      assert b == {};
    } else {
      var i :| i in a;
      forall s | s in b - {f[i]}
        ensures exists j :: j in a - {i} && f[j] == s
      {
        var j :| j in a && f[j] == s;
        assert j in a - {i};
      }
      SameSize(a - {i}, b - {f[i]}, f);
    }
  }

  /** Conservation: what was accepted is active, acknowledged, completed or given up. */
  lemma Conservation(c: Config, start: int, ops: seq<Operation>)
    requires ClockNeverGoesBack(c, start, ops)
    ensures var st := Run(c, start, ops);
            |st.fate| == |ActiveSlots(st)| + |Fates(st, Acked)| + |Fates(st, Completed)| + |Fates(st, Expired)|
  {
    hide Transmitted, Phases, TimerRuns, Deadlines, Run;
    RunKeeps(c, start, ops);
    var st := Run(c, start, ops);
    SameSize(ActiveSlots(st), Fates(st, Pending), st.serial);
    FatesAddUp(st);
  }

  lemma {:induction false} FatesAddUp(st: State)
    ensures |st.fate| == |Fates(st, Pending)| + |Fates(st, Acked)| + |Fates(st, Completed)| + |Fates(st, Expired)|
    decreases |st.fate|
  {
    hide Fates;
    if st.fate == [] {
      NoFates(st);
    }
    if st.fate != [] {
      var last := |st.fate| - 1;
      var shorter := st.(fate := st.fate[..last]);
      FatesAddUp(shorter);
      FateOneMore(st, Pending);
      FateOneMore(st, Acked);
      FateOneMore(st, Completed);
      FateOneMore(st, Expired);
    }
  }

  lemma NoFates(st: State)
    requires st.fate == []
    ensures forall f :: Fates(st, f) == {}
  {
  }

  lemma FateOneMore(st: State, f: Fate)
    requires st.fate != []
    ensures var last := |st.fate| - 1;
            |Fates(st, f)| == |Fates(st.(fate := st.fate[..last]), f)| + if st.fate[last] == f then 1 else 0
  {
    var last := |st.fate| - 1;
    assert Fates(st, f) == Fates(st.(fate := st.fate[..last]), f) + if st.fate[last] == f then {last} else {};
  }

  /** Retransmission is bounded, for every packet ever accepted. */
  lemma AtMostFourTransmissions(c: Config, start: int, ops: seq<Operation>, serial: nat)
    requires ClockNeverGoesBack(c, start, ops) && serial < |Run(c, start, ops).fate|
    ensures Sends(Run(c, start, ops).wire, serial) <= 4
  {
    hide Accounted, Phases, TimerRuns, Deadlines, Run, Sends;
    RunKeeps(c, start, ops);
  }

  /**
    An active QoS 2 slot waits on exactly one of the two answers; with a timer, no slot is in use
    while it is stopped.
   */
  lemma ActiveSlotsWaitAndAreTimed(c: Config, start: int, ops: seq<Operation>, i: nat)
    requires ClockNeverGoesBack(c, start, ops) && i < MAX_PENDING && Run(c, start, ops).slots[i].active
    ensures var st := Run(c, start, ops);
            && (st.slots[i].qos == 2 ==> st.slots[i].waitingPubrec != st.slots[i].waitingPubcomp)
            && (c.timer ==> st.running)
  {
    hide Accounted, Transmitted, Deadlines, Run;
    RunKeeps(c, start, ops);
  }

  /**
    While ticks are at most `period` apart, and none is overdue now, a slot still in use was accepted
    at most 7000 + 4 * period milliseconds ago.
   */
  lemma FreedInTime(c: Config, start: int, ops: seq<Operation>, i: nat, now: int)
    requires ClockNeverGoesBack(c, start, ops) && i < MAX_PENDING
    requires var st := Run(c, start, ops);
             st.timely && st.slots[i].active && now <= st.reference + c.period
    ensures now <= Run(c, start, ops).accepted[i] + 7000 + 4 * c.period
  {
    hide Accounted, Phases, TimerRuns, Run, Sends;
    RunKeeps(c, start, ops);
    var r := Run(c, start, ops).slots[i].retries;
    DueAtMost(r, c.period);
  }

  lemma DueAtMost(r: nat, period: nat)
    ensures r <= 3 ==> Due(r, period) <= 7000 + 3 * period
  {
    if r == 3 {
      assert Pow2(3) == 8;
    } else if r == 2 {
      assert Pow2(2) == 4;
    } else if r == 1 {
      assert Pow2(1) == 2;
    }
  }
}
