/**
  Packets from the backend to one device, over a network that drops, duplicates and reorders.

  The backend numbers everything it sends in a session from one counter; the device gates what
  arrives in the order of handle_incoming_packet. What the two guarantee together is stated about
  every run of sends and arrivals.
 */
module Delivery {
  import opened Basics
  import opened Replay

  datatype SecurityAction = Challenge | SessionActive | KeyRotate | OtherAction

  datatype Service = Security(action: SecurityAction) | Application

  datatype Packet = Packet(id: nat, ack: bool, service: Service)

  // ---------------------------------------------------------------- the device

  /**
    What of the device matters here. `passed` lists the ids that got through the replay
    check, `dispatched` those that also decrypted and went on to a service.
   */
  datatype DeviceState =
    DeviceState(active: bool, accepted: set<nat>, passed: seq<nat>, dispatched: seq<nat>, acked: seq<nat>)

  /**
    The effect of one packet. `ok` tells whether the key operations succeed: of a handshake step,
    or the decryption.
   */
  function Receive(d: DeviceState, p: Packet, ok: bool): DeviceState {
    if p.ack then d.(acked := d.acked + [p.id])
    else
      match p.service
      case Security(Challenge) => if ok then d.(active := false) else d
      case Security(SessionActive) => d.(active := true, accepted := {})
      case Security(KeyRotate) => d.(active := false)
      case Security(OtherAction) => d
      case Application =>
        if d.active && Fresh(d.accepted, p.id) then
          d.(accepted := d.accepted + {p.id}, passed := d.passed + [p.id],
             dispatched := if ok then d.dispatched + [p.id] else d.dispatched)
        else d
  }

  datatype SessionState = Idle | HelloSent | EcdhSent | Active

  class Device {
    var state: SessionState
    const replay: ReplayContext
    ghost var passed: seq<nat>
    ghost var handed: seq<nat>
    ghost var acked: seq<nat>

    ghost predicate Valid()
      reads this, replay
    {
      replay.Valid()
    }

    ghost function State(): DeviceState
      reads this, replay
    {
      DeviceState(state == Active, replay.accepted, passed, handed, acked)
    }

    constructor ()
      ensures Valid() && fresh(replay) && State() == DeviceState(false, {}, [], [], [])
    {
      state, passed, handed, acked := Idle, [], [], [];
      replay := new ReplayContext();
    }

    /** handle_incoming_packet up to the dispatch on the service. */
    method HandleIncomingPacket(p: Packet, ok: bool) returns (dispatched: bool)
      requires Valid() && p.id <= UINT32_MAX
      modifies this, replay
      ensures Valid() && State() == Receive(old(State()), p, ok)
      ensures dispatched == (State().dispatched != old(State().dispatched))
    {
      dispatched := false;
      if p.ack {
        acked := acked + [p.id];
        return;
      }
      match p.service {
        case Security(Challenge) =>
          if ok {
            state := EcdhSent;
          }
          return;
        case Security(SessionActive) =>
          state := Active;
          replay.Reset();
          return;
        case Security(KeyRotate) =>
          state := Idle;
          if ok {
            state := HelloSent;
          }
          return;
        case Security(OtherAction) =>
          return;
        case Application =>
      }
      if state != Active {
        return;
      }
      var unseen := replay.Check(p.id);
      if !unseen {
        return;
      }
      passed := passed + [p.id];
      if !ok {
        return;
      }
      handed := handed + [p.id];
      dispatched := true;
    }
  }

  // ---------------------------------------------------------------- the backend

  /** A DeviceSession: `wire` is what has been handed to the socket. */
  class ServerSession {
    var active: bool
    var packetCounter: nat
    const replayGuard: ReplayGuard
    ghost var wire: seq<Packet>

    ghost predicate Valid()
      reads this, replayGuard
    {
      replayGuard.Valid()
    }

    /** createPendingSession. */
    constructor ()
      ensures Valid() && fresh(replayGuard) && !active && packetCounter == 0 && wire == []
    {
      active, packetCounter, wire := false, 0, [];
      replayGuard := new ReplayGuard();
    }

    /** activateSession: the counter goes on, the guard starts afresh. */
    method Activate()
      requires Valid()
      modifies this`active, replayGuard
      ensures Valid() && active && replayGuard.accepted == {}
    {
      active := true;
      replayGuard.Reset();
    }

    /**
      sendYkpPacket, for a session that exists. The counter advances before the packet is built and
      sent, so an id is used up even if the header cannot hold it or the socket is not open.
     */
    method SendYkpPacket(service: Service, open: bool) returns (sent: bool)
      modifies this`packetCounter, this`wire
      ensures (packetCounter, wire) == Sent(old(packetCounter), old(wire), false, service, open)
      ensures sent ==> wire != old(wire)
    {
      packetCounter := packetCounter + 1;
      sent := packetCounter <= UINT32_MAX && open;
      if sent {
        wire := wire + [Packet(packetCounter, false, service)];
      }
    }

    /**
      The gates of the message handler for an application packet from the device, and its
      ACK. A failed decryption ends the handler, and so does an ACK whose id no longer
      fits the header, because building it throws.
     */
    method HandleMessage(id: nat, qos1: bool, decrypts: bool, open: bool) returns (dispatched: bool)
      requires Valid()
      modifies this`packetCounter, this`wire, replayGuard
      ensures Valid()
      ensures var unseen := active && Fresh(old(replayGuard.accepted), id);
              && replayGuard.accepted == old(replayGuard.accepted) + (if unseen then {id} else {})
              && (packetCounter, wire) ==
                   (if unseen && decrypts && qos1 then Sent(old(packetCounter), old(wire), true, Application, open)
                    else (old(packetCounter), old(wire)))
              && dispatched == (unseen && decrypts && (qos1 ==> packetCounter <= UINT32_MAX))
    {
      dispatched := false;
      if !active {
        return;
      }
      var unseen := replayGuard.Check(id);
      if !unseen || !decrypts {
        return;
      }
      if qos1 {
        packetCounter := packetCounter + 1;
        if packetCounter > UINT32_MAX {
          return;
        }
        if open {
          wire := wire + [Packet(packetCounter, true, Application)];
        }
      }
      dispatched := true;
    }
  }

  /** The counter and the wire after the backend tries to send one numbered packet. */
  function Sent(counter: nat, wire: seq<Packet>, ack: bool, service: Service, open: bool): (nat, seq<Packet>) {
    (counter + 1, if counter + 1 <= UINT32_MAX && open then wire + [Packet(counter + 1, ack, service)] else wire)
  }

  // ---------------------------------------------------------------- runs

  datatype Event =
    | Send(ack: bool, open: bool)                        // the backend numbers and sends a packet
    | SendSecurity(action: SecurityAction, id: nat)      // a handshake packet, numbered by the device's request
    | Arrive(n: nat, ok: bool)                           // a copy of the n-th packet ever sent arrives

  datatype World = World(counter: nat, sent: seq<Packet>, device: DeviceState)

  function Step(w: World, e: Event): World {
    match e
    case Send(ack, open) =>
      var (counter, sent) := Sent(w.counter, w.sent, ack, Application, open);
      w.(counter := counter, sent := sent)
    case SendSecurity(action, id) => w.(sent := w.sent + [Packet(id, false, Security(action))])
    case Arrive(n, ok) => if n < |w.sent| then w.(device := Receive(w.device, w.sent[n], ok)) else w
  }

  /** A run from any world: packets of earlier times may still be under way. */
  function Run(start: World, events: seq<Event>): World {
    if events == [] then start else Step(Run(start, events[..|events| - 1]), events[|events| - 1])
  }

  /** A packet that is to be dispatched to a service. */
  predicate ForService(p: Packet) {
    !p.ack && p.service == Application
  }

  function Count(s: seq<nat>, x: nat): (n: nat)
    ensures n > 0 <==> x in s
  {
    if s == [] then 0 else Count(s[..|s| - 1], x) + if s[|s| - 1] == x then 1 else 0
  }

  lemma CountOneMore(s: seq<nat>, y: nat, x: nat)
    ensures Count(s + [y], x) == Count(s, x) + if x == y then 1 else 0
  {
    assert (s + [y])[..|s|] == s;
  }

  // ---------------------------------------------------------------- what happens at one event

  /** The world just before event `i`. */
  function Before(start: World, events: seq<Event>, i: nat): World
    requires i <= |events|
  {
    Run(start, events[..i])
  }

  /** A SESSION_ACTIVE arrives, which empties the replay window. */
  predicate Resets(w: World, e: Event) {
    e.Arrive? && e.n < |w.sent| && !w.sent[e.n].ack && w.sent[e.n].service == Security(SessionActive)
  }

  /**
    A copy of a service packet with id `x` arrives in time: the session is active and
    nothing 64 or more ids newer has been accepted.
   */
  ghost predicate InTime(w: World, e: Event, x: nat) {
    && e.Arrive? && e.n < |w.sent| && ForService(w.sent[e.n]) && w.sent[e.n].id == x
    && x != 0 && w.device.active
    && forall a :: a in w.device.accepted ==> a < x + WINDOW_SIZE
  }

  ghost predicate InTimeAt(start: World, events: seq<Event>, x: nat, i: nat) {
    i < |events| && InTime(Before(start, events, i), events[i], x)
  }

  ghost predicate ResetAt(start: World, events: seq<Event>, i: nat) {
    i < |events| && Resets(Before(start, events, i), events[i])
  }

  /** A SESSION_ACTIVE arrives at event `j` or later and before event `i`. */
  ghost predicate ResetBetween(start: World, events: seq<Event>, j: nat, i: nat) {
    exists r: nat :: j <= r < i && ResetAt(start, events, r)
  }

  /** The first arrival in time of id `x` since the last SESSION_ACTIVE. */
  ghost predicate FirstAt(start: World, events: seq<Event>, x: nat, i: nat) {
    && InTimeAt(start, events, x, i)
    && (forall j: nat :: j < i && InTimeAt(start, events, x, j) ==> ResetBetween(start, events, j, i))
    && (x in start.device.accepted ==> ResetBetween(start, events, 0, i))
  }

  ghost function Firsts(start: World, events: seq<Event>, x: nat): set<nat> {
    set i: nat | i < |events| && FirstAt(start, events, x, i)
  }

  /** Those of the first arrivals whose decryption succeeds. */
  ghost function Decrypted(events: seq<Event>, s: set<nat>): set<nat> {
    set i | i in s && i < |events| && events[i].Arrive? && events[i].ok
  }

  /** What one event does to the device's record of an id. */
  lemma OneEvent(w: World, e: Event, x: nat)
    ensures var v := Step(w, e).device;
            && (x in v.accepted <==> !Resets(w, e) && (x in w.device.accepted || InTime(w, e, x)))
            && Count(v.passed, x) == Count(w.device.passed, x)
                 + (if InTime(w, e, x) && x !in w.device.accepted then 1 else 0)
            && Count(v.dispatched, x) == Count(w.device.dispatched, x)
                 + (if InTime(w, e, x) && x !in w.device.accepted && e.ok then 1 else 0)
  {
    hide Count;
    if e.Arrive? && e.n < |w.sent| {
      CountOneMore(w.device.passed, w.sent[e.n].id, x);
      CountOneMore(w.device.dispatched, w.sent[e.n].id, x);
    }
  }

  // ---------------------------------------------------------------- one event more

  lemma RunUnfolds(start: World, events: seq<Event>)
    requires events != []
    ensures Run(start, events) == Step(Before(start, events, |events| - 1), events[|events| - 1])
  {
  }

  /** What happens at an event does not depend on the events behind it. */
  lemma PrefixSame(start: World, events: seq<Event>, x: nat, i: nat)
    requires events != [] && i < |events| - 1
    ensures var before := events[..|events| - 1];
            && InTimeAt(start, before, x, i) == InTimeAt(start, events, x, i)
            && ResetAt(start, before, i) == ResetAt(start, events, i)
  {
    assert events[..|events| - 1][..i] == events[..i];
  }

  lemma PrefixReset(start: World, events: seq<Event>, j: nat, i: nat)
    requires events != [] && i <= |events| - 1
    ensures ResetBetween(start, events[..|events| - 1], j, i) == ResetBetween(start, events, j, i)
  {
    hide ResetAt;
    var before := events[..|events| - 1];
    if ResetBetween(start, before, j, i) {
      var r: nat :| j <= r < i && ResetAt(start, before, r);
      PrefixSame(start, events, 0, r);
    }
    if ResetBetween(start, events, j, i) {
      var r: nat :| j <= r < i && ResetAt(start, events, r);
      PrefixSame(start, events, 0, r);
    }
  }

  /** One event further, a reset is between if it was or if it is the last event. */
  lemma ResetFurther(start: World, events: seq<Event>, j: nat)
    requires events != [] && j <= |events| - 1
    ensures ResetBetween(start, events, j, |events|) <==>
            ResetBetween(start, events, j, |events| - 1) || ResetAt(start, events, |events| - 1)
  {
    hide ResetAt;
    if ResetBetween(start, events, j, |events|) {
      var r: nat :| j <= r < |events| && ResetAt(start, events, r);
      assert r < |events| - 1 ==> ResetBetween(start, events, j, |events| - 1);
    }
  }

  lemma FirstsOfPrefix(start: World, events: seq<Event>, x: nat)
    requires events != []
    ensures var last := |events| - 1;
            Firsts(start, events, x) ==
            Firsts(start, events[..last], x) + if FirstAt(start, events, x, last) then {last} else {}
  {
    hide InTimeAt, ResetBetween, ResetAt;
    var before := events[..|events| - 1];
    forall i: nat | i < |events| - 1 ensures FirstAt(start, before, x, i) == FirstAt(start, events, x, i) {
      PrefixSame(start, events, x, i);
      PrefixReset(start, events, 0, i);
      forall j: nat | j < i
        ensures InTimeAt(start, before, x, j) == InTimeAt(start, events, x, j)
        ensures ResetBetween(start, before, j, i) == ResetBetween(start, events, j, i)
      {
        PrefixSame(start, events, x, j);
        PrefixReset(start, events, j, i);
      }
    }
  }

  // ---------------------------------------------------------------- whole runs

  /** The id is accepted since before the run, or since an arrival in time, and nothing has reset the window. */
  ghost predicate Held(start: World, events: seq<Event>, x: nat) {
    || (x in start.device.accepted && !ResetBetween(start, events, 0, |events|))
    || (exists j: nat :: InTimeAt(start, events, x, j) && !ResetBetween(start, events, j, |events|))
  }

  lemma HeldStep(start: World, events: seq<Event>, x: nat)
    requires events != []
    ensures var last := |events| - 1;
            Held(start, events, x) <==>
            !ResetAt(start, events, last) && (Held(start, events[..last], x) || InTimeAt(start, events, x, last))
  {
    hide InTimeAt, ResetAt, ResetBetween;
    var last, before := |events| - 1, events[..|events| - 1];
    ResetFurther(start, events, 0);
    PrefixReset(start, events, 0, last);
    forall j: nat | j < last
      ensures InTimeAt(start, before, x, j) == InTimeAt(start, events, x, j)
      ensures ResetBetween(start, events, j, |events|) <==>
              ResetBetween(start, before, j, last) || ResetAt(start, events, last)
    {
      PrefixSame(start, events, x, j);
      ResetFurther(start, events, j);
      PrefixReset(start, events, j, last);
    }
    ResetFurther(start, events, last);
    NoResetBetween(start, events, last);
    BeyondEnd(start, events, x);
    BeyondEnd(start, before, x);
  }

  lemma NoResetBetween(start: World, events: seq<Event>, i: nat)
    ensures !ResetBetween(start, events, i, i)
  {
  }

  lemma BeyondEnd(start: World, events: seq<Event>, x: nat)
    ensures forall i: nat :: InTimeAt(start, events, x, i) ==> i < |events|
  {
  }

  /** After any run, exactly the held ids are accepted. */
  lemma {:induction false} AcceptedExactly(start: World, events: seq<Event>, x: nat)
    ensures x in Run(start, events).device.accepted <==> Held(start, events, x)
    decreases |events|
  {
    if events == [] {
      assert !ResetBetween(start, events, 0, 0);
    } else {
      hide Held, InTime, Resets, Run, Step;
      var last := |events| - 1;
      AcceptedExactly(start, events[..last], x);
      HeldStep(start, events, x);
      RunUnfolds(start, events);
      OneEvent(Before(start, events, last), events[last], x);
    }
  }

  /** Whether the last event is the first arrival in time of its segment. */
  lemma FirstExactly(start: World, events: seq<Event>, x: nat)
    requires events != []
    ensures var last := |events| - 1;
            FirstAt(start, events, x, last) <==>
            InTimeAt(start, events, x, last) && !Held(start, events[..last], x)
  {
    hide InTimeAt, ResetAt, ResetBetween;
    var last, before := |events| - 1, events[..|events| - 1];
    PrefixReset(start, events, 0, last);
    BeyondEnd(start, before, x);
    forall j: nat | j < last
      ensures InTimeAt(start, before, x, j) == InTimeAt(start, events, x, j)
      ensures ResetBetween(start, before, j, last) == ResetBetween(start, events, j, last)
    {
      PrefixSame(start, events, x, j);
      PrefixReset(start, events, j, last);
    }
  }

  lemma DecryptedStep(events: seq<Event>, s: set<nat>, first: bool)
    requires events != [] && (forall i :: i in s ==> i < |events| - 1) && (first ==> events[|events| - 1].Arrive?)
    ensures var last := |events| - 1;
            |Decrypted(events, s + if first then {last} else {})| ==
            |Decrypted(events[..last], s)| + if first && events[last].ok then 1 else 0
  {
    var last := |events| - 1;
    assert Decrypted(events[..last], s) == Decrypted(events, s);
    var all := Decrypted(events, s + if first then {last} else {});
    assert all == Decrypted(events, s) + if first && events[last].ok then {last} else {};
  }

  /**
    In every run, whatever the network drops, repeats or reorders, an id passes the replay
    check once for each stretch between two SESSION_ACTIVE arrivals in which a copy arrives
    in time, and it is dispatched once for each of these first copies that decrypts.
   */
  lemma {:induction false} PassedExactly(start: World, events: seq<Event>, x: nat)
    ensures Count(Run(start, events).device.passed, x) == Count(start.device.passed, x) + |Firsts(start, events, x)|
    ensures Count(Run(start, events).device.dispatched, x) ==
            Count(start.device.dispatched, x) + |Decrypted(events, Firsts(start, events, x))|
    decreases |events|
  {
    if events == [] {
      assert Firsts(start, events, x) == {} && Decrypted(events, {}) == {};
    } else {
      hide Held, InTime, Resets, Run, Step, Count, FirstAt;
      var last := |events| - 1;
      PassedExactly(start, events[..last], x);
      AcceptedExactly(start, events[..last], x);
      FirstExactly(start, events, x);
      FirstsOfPrefix(start, events, x);
      RunUnfolds(start, events);
      OneEvent(Before(start, events, last), events[last], x);
      FirstArrives(start, events, x);
      DecryptedStep(events, Firsts(start, events[..last], x), FirstAt(start, events, x, last));
    }
  }

  lemma FirstArrives(start: World, events: seq<Event>, x: nat)
    ensures forall i: nat :: FirstAt(start, events, x, i) ==> i < |events| && events[i].Arrive?
  {
  }

  // ---------------------------------------------------------------- at most once, exactly once

  /** The least event with an arrival in time at or behind event `k`. */
  lemma {:induction false} LeastInTime(start: World, events: seq<Event>, x: nat, k: nat, i: nat) returns (m: nat)
    requires k <= i && InTimeAt(start, events, x, i)
    ensures k <= m <= i && InTimeAt(start, events, x, m)
    ensures forall j: nat :: k <= j < m ==> !InTimeAt(start, events, x, j)
    decreases i - k
  {
    hide InTimeAt;
    if InTimeAt(start, events, x, k) {
      m := k;
    } else {
      m := LeastInTime(start, events, x, k + 1, i);
    }
  }

  lemma TwoInSet(s: set<nat>, a: nat, b: nat)
    requires a in s && b in s && a != b
    ensures |s| >= 2
  {
    assert |s - {a}| >= 1 by {
      assert b in s - {a};
    }
  }

  lemma AtMostOneElement(s: set<nat>)
    requires forall a, b :: a in s && b in s ==> a == b
    ensures |s| <= 1
  {
    if s != {} {
      var a :| a in s;
      assert s == {a};
    }
  }

  /**
    A new id passes the replay check at most once in a run if and only if no SESSION_ACTIVE
    arrives between two arrivals in time of its copies.
   */
  lemma AtMostOnceExactly(start: World, events: seq<Event>, x: nat)
    requires x !in start.device.accepted
    ensures Count(Run(start, events).device.passed, x) <= Count(start.device.passed, x) + 1 <==>
            forall j: nat, i: nat :: j < i && InTimeAt(start, events, x, j) && InTimeAt(start, events, x, i) ==>
              !ResetBetween(start, events, j, i)
  {
    hide Run, Count, InTimeAt, ResetAt;
    PassedExactly(start, events, x);
    var s := Firsts(start, events, x);
    BeyondEnd(start, events, x);
    if j: nat, i: nat :| j < i && InTimeAt(start, events, x, j) && InTimeAt(start, events, x, i)
                         && ResetBetween(start, events, j, i)
    {
      var r: nat :| j <= r < i && ResetAt(start, events, r);
      var a := LeastInTime(start, events, x, 0, j);
      NotBothAt(start, events, x, r);
      var b := LeastInTime(start, events, x, r, i);
      forall k: nat | k < b && InTimeAt(start, events, x, k) ensures ResetBetween(start, events, k, b) {
        assert k < r;
      }
      TwoInSet(s, a, b);
    } else {
      forall a, b | a in s && b in s ensures a == b {
      }
      AtMostOneElement(s);
    }
  }

  lemma NotBothAt(start: World, events: seq<Event>, x: nat, r: nat)
    requires ResetAt(start, events, r)
    ensures !InTimeAt(start, events, x, r)
  {
  }

  /**
    Within one session, a new id passes exactly once if a copy of it arrives in time, and
    otherwise never.
   */
  lemma ExactlyOnce(start: World, events: seq<Event>, x: nat)
    requires x !in start.device.accepted && !ResetBetween(start, events, 0, |events|)
    ensures Count(Run(start, events).device.passed, x) ==
            Count(start.device.passed, x) + if exists i: nat :: InTimeAt(start, events, x, i) then 1 else 0
  {
    hide Run, Count, InTimeAt, ResetAt;
    PassedExactly(start, events, x);
    var s := Firsts(start, events, x);
    BeyondEnd(start, events, x);
    forall j: nat, i: nat | j < i && InTimeAt(start, events, x, j) && InTimeAt(start, events, x, i)
      ensures !ResetBetween(start, events, j, i)
    {
    }
    AtMostOnceExactly(start, events, x);
    if i: nat :| InTimeAt(start, events, x, i) {
      var a := LeastInTime(start, events, x, 0, i);
      assert a in s;
      assert |s| >= 1;
    } else {
      assert s == {};
    }
  }

  // ---------------------------------------------------------------- packets and their ids

  /** Numbered packets bear growing ids up to the counter. */
  ghost predicate Numbered(w: World) {
    && (forall i :: 0 <= i < |w.sent| && w.sent[i].service == Application ==> 0 < w.sent[i].id <= w.counter)
    && (forall i, j :: 0 <= i < j < |w.sent| && w.sent[i].service == Application == w.sent[j].service ==>
          w.sent[i].id < w.sent[j].id)
  }

  lemma StepNumbers(w: World, e: Event)
    requires Numbered(w)
    ensures Numbered(Step(w, e))
  {
    hide Receive;
  }

  lemma {:induction false} RunNumbers(start: World, events: seq<Event>)
    requires Numbered(start)
    ensures Numbered(Run(start, events))
    decreases |events|
  {
    if events != [] {
      var last := |events| - 1;
      RunNumbers(start, events[..last]);
      StepNumbers(Run(start, events[..last]), events[last]);
    }
  }

  lemma {:induction false} SentGrows(start: World, events: seq<Event>, i: nat)
    requires i <= |events|
    ensures Before(start, events, i).sent <= Run(start, events).sent
    decreases |events|
  {
    var last := |events| - 1;
    if i == |events| {
      assert events[..i] == events;
    } else {
      SentGrows(start, events[..last], i);
      assert events[..last][..i] == events[..i];
    }
  }

  /** An arrival in time of the id of a service packet is an arrival of that packet. */
  lemma ArrivalOfPacket(start: World, events: seq<Event>, n: nat, i: nat)
    requires Numbered(start) && n < |Run(start, events).sent| && ForService(Run(start, events).sent[n])
    requires InTimeAt(start, events, Run(start, events).sent[n].id, i)
    ensures events[i].n == n
  {
    hide Run;
    SentGrows(start, events, i);
    RunNumbers(start, events);
    var sent, m := Run(start, events).sent, events[i].n;
    assert sent[m] == Before(start, events, i).sent[m];
    assert sent[if m < n then m else n].id < sent[if m < n then n else m].id || m == n;
  }

  /** No ACK gets as far as the replay check, in any run. */
  lemma AcksNeverPass(start: World, events: seq<Event>, n: nat)
    requires Numbered(start) && n < |Run(start, events).sent|
    requires Run(start, events).sent[n].ack && Run(start, events).sent[n].service == Application
    ensures Count(Run(start, events).device.passed, Run(start, events).sent[n].id) ==
            Count(start.device.passed, Run(start, events).sent[n].id)
  {
    hide Run, Count;
    var sent := Run(start, events).sent;
    var x := sent[n].id;
    PassedExactly(start, events, x);
    RunNumbers(start, events);
    forall i: nat | i < |events| ensures !InTimeAt(start, events, x, i) {
      var w, e := Before(start, events, i), events[i];
      SentGrows(start, events, i);
      if e.Arrive? && e.n < |w.sent| && ForService(w.sent[e.n]) {
        assert sent[e.n] == w.sent[e.n];
        assert sent[if e.n < n then e.n else n].id < sent[if e.n < n then n else e.n].id;
      }
    }
    assert Firsts(start, events, x) == {};
  }

  // ---------------------------------------------------------------- a failing run

  /** A session that has just become active on the device. */
  function Activated(): World {
    World(0, [], DeviceState(true, {}, [], [], []))
  }

  /** A second copy of SESSION_ACTIVE empties the window, and an old packet is dispatched again. */
  lemma SecondSessionActiveReplays()
    ensures var events := [SendSecurity(SessionActive, 3), Send(false, true), Arrive(1, true), Arrive(0, true),
            Arrive(1, true)];
            Run(Activated(), events).device.dispatched == [1, 1]
  {
    var events := [SendSecurity(SessionActive, 3), Send(false, true), Arrive(1, true), Arrive(0, true),
        Arrive(1, true)];
    var w := Activated();
    assert events[..4][..3][..2][..1] == events[..1] && events[..4][..3][..2] == events[..2];
    assert events[..4][..3] == events[..3];
    assert Run(w, events[..1]) == Step(w, events[0]);
    assert Run(w, events[..2]) == Step(Run(w, events[..1]), events[1]);
    assert Run(w, events[..3]) == Step(Run(w, events[..2]), events[2]);
    assert Run(w, events[..4]) == Step(Run(w, events[..3]), events[3]);
  }
}
