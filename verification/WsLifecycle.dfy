/**
  The WebSocket client task with other threads that send, stop and close.

  All writes of the client state but those that begin and end the task happen under `lock`, so a run is
  a sequence of critical sections; while the client task does not hold the lock, any number of sections
  of other threads run. What the network, the timers, the event handler and the other threads do is given
  from outside (`Env`), so a statement about every `Env` is one about every interleaving. The functions
  say what each part of the client task does to the client; `WsClient` has the code that computes them,
  with its two locks.

  Two things are assumed of the surroundings, as the code does: reading a closed transport fails, and
  the event handler does not send when it is told of an error, a loss or a CLOSE frame. Another
  thread's test that the client is connected may be arbitrarily old when its send fails.
 */
module WsLifecycle {

  datatype ClientState = Unknown | Init | Connected | WaitTimeout | Closing

  /** `late` marks a loss reported by another thread while the client waits in INIT, where there is no connection. */
  datatype Event = Begin | BeforeConnect | ConnectedEvent | Data | Error | Disconnected(late: bool) | Closed | Finish

  datatype Connect = Failed | Redirected | Established

  datatype Opcode = NoOpcode | DataFrame | Ping | Pong | CloseFrame

  datatype SendResult = NotLocked | NoBuffer | WriteFails | Written

  /** One read: a failure, or a frame part after whose event the handler may send. */
  datatype Read = Read(fails: bool, opcode: Opcode, empty: bool, handler: seq<SendResult>)

  datatype Poll = PollFails | Nothing | Readable

  datatype Action = SendFails | Stop | CloseSent

  /**
    The outside of one turn of the loop of the client task; `others(k)` runs at the k-th point
    where the lock is free.
   */
  datatype Env = Env(
    connect: Connect, onConnected: seq<SendResult>, pending: bool, first: Read, more: seq<Read>,
    txLocked: bool, pingDue: bool, pongLate: bool, elapsed: bool, poll: Poll, others: nat -> seq<Action>)

  datatype Config = Config(separateTxLock: bool, autoReconnect: bool, closeReconnect: bool)

  // ---------------------------------------------------------------- logs of events

  /** Where a log stands: before any attempt, attempting, connected, or having reported the loss. */
  datatype Status = NoAttempt | Attempt | Up | Lost | Illegal

  function After(s: Status, e: Event): Status {
    match e
    case BeforeConnect => if s == Up || s == Illegal then Illegal else Attempt
    case ConnectedEvent => if s == Attempt then Up else Illegal
    case Disconnected(late) =>
      if late then (if s == Up || s == Illegal then Illegal else s)
      else if s == Attempt || s == Up then Lost else Illegal
    case Closed => if s == Up then Lost else Illegal
    case _ => s
  }

  function StatusOf(log: seq<Event>): Status {
    if log == [] then NoAttempt else After(StatusOf(log[..|log| - 1]), log[|log| - 1])
  }

  lemma StatusMore(log: seq<Event>, e: Event)
    ensures StatusOf(log + [e]) == After(StatusOf(log), e)
  {
    assert (log + [e])[..|log|] == log;
  }

  predicate IsLoss(e: Event) {
    e.Disconnected? || e.Closed?
  }

  lemma {:induction false} LegalBefore(log: seq<Event>, i: nat)
    requires i <= |log| && StatusOf(log) != Illegal
    ensures StatusOf(log[..i]) != Illegal
    decreases |log| - i
  {
    if i == |log| {
      assert log[..i] == log;
    } else {
      LegalBefore(log, i + 1);
      assert log[..i + 1][..i] == log[..i];
    }
  }

  /** Up to `j` nothing but a loss or a new attempt ends what a CONNECTED at `i` began. */
  lemma {:induction false} UpUntilLoss(log: seq<Event>, i: nat, j: nat)
    requires i < j <= |log| && StatusOf(log) != Illegal && log[i] == ConnectedEvent
    requires forall k :: i < k < j ==> !IsLoss(log[k])
    ensures StatusOf(log[..j]) == Up
    decreases j
  {
    LegalBefore(log, j);
    assert log[..j][..j - 1] == log[..j - 1];
    if j > i + 1 {
      UpUntilLoss(log, i, j - 1);
    }
  }

  /** A loss is reported between any two CONNECTED events. */
  lemma ConnectionsAreSeparated(log: seq<Event>, i: nat, j: nat)
    requires i < j < |log| && StatusOf(log) != Illegal && log[i] == log[j] == ConnectedEvent
    ensures exists k :: i < k < j && IsLoss(log[k])
  {
    LegalBefore(log, j + 1);
    assert log[..j + 1][..j] == log[..j];
    if forall k :: i < k < j ==> !IsLoss(log[k]) {
      UpUntilLoss(log, i, j);
    }
  }

  /** After a loss only late reports follow, until the next attempt. */
  lemma {:induction false} LostUntilAttempt(log: seq<Event>, i: nat, j: nat)
    requires i < j <= |log| && StatusOf(log) != Illegal && IsLoss(log[i]) && !(log[i].Disconnected? && log[i].late)
    requires forall k :: i < k < j ==> log[k] != BeforeConnect
    ensures StatusOf(log[..j]) == Lost
    decreases j
  {
    LegalBefore(log, j);
    assert log[..j][..j - 1] == log[..j - 1];
    if j > i + 1 {
      LostUntilAttempt(log, i, j - 1);
    }
  }

  /**
    Between a loss and the next attempt it is reported again exactly if there is a late
    report: one by another thread that found the client waiting in INIT.
   */
  lemma ReportedOnceExactly(log: seq<Event>, i: nat, n: nat)
    requires i < n <= |log| && StatusOf(log) != Illegal && IsLoss(log[i]) && log[i] != Disconnected(true)
    requires forall k :: i < k < n ==> log[k] != BeforeConnect
    ensures (forall j :: i < j < n ==> !IsLoss(log[j])) <==> (forall j :: i < j < n ==> log[j] != Disconnected(true))
  {
    forall j | i < j < n && IsLoss(log[j]) ensures log[j] == Disconnected(true) {
      LostUntilAttempt(log, i, j);
      LegalBefore(log, j + 1);
      assert log[..j + 1][..j] == log[..j];
    }
  }

  function LateReports(log: seq<Event>): nat {
    if log == [] then 0 else LateReports(log[..|log| - 1]) + if log[|log| - 1] == Disconnected(true) then 1 else 0
  }

  lemma LateMore(log: seq<Event>, e: Event)
    ensures LateReports(log + [e]) == LateReports(log) + if e == Disconnected(true) then 1 else 0
  {
    assert (log + [e])[..|log|] == log;
  }

  lemma {:induction false} NoneLate(log: seq<Event>)
    ensures LateReports(log) == 0 <==> forall i :: 0 <= i < |log| ==> log[i] != Disconnected(true)
  {
    if log != [] {
      var last := |log| - 1;
      NoneLate(log[..last]);
      assert forall i :: 0 <= i < last ==> log[..last][i] == log[i];
    }
  }

  // ---------------------------------------------------------------- the client

  datatype Thread = Task | Other

  /** `initFailures` is bookkeeping: how many sends of other threads have failed while the client was in INIT. */
  datatype View = View(
    state: ClientState, run: bool, closeFrameSent: bool, waitForPong: bool, transportOpen: bool, log: seq<Event>,
    initFailures: nat)

  function Logged(v: View, e: Event): View {
    v.(log := v.log + [e])
  }

  /** esp_websocket_client_abort_connection. */
  function Aborted(c: Config, v: View, t: Thread): View {
    if v.state in {Closing, Unknown, WaitTimeout} then v
    else
      Logged(v.(transportOpen := false, run := v.run && c.autoReconnect,
                state := if c.autoReconnect then WaitTimeout else Unknown),
             Disconnected(t == Other && v.state == Init))
  }

  /** Another thread's send fails. */
  function SenderFailed(c: Config, v: View): View {
    Aborted(c, Logged(v.(initFailures := v.initFailures + if v.state == Init then 1 else 0), Error), Other)
  }

  function OtherStep(c: Config, v: View, a: Action): View {
    match a
    case SendFails => SenderFailed(c, v)
    case Stop => v.(run := false)
    case CloseSent => v.(closeFrameSent := true)
  }

  /** Sections of other threads. */
  function OthersDone(c: Config, v: View, actions: seq<Action>): View
    decreases |actions|
  {
    if actions == [] then v else OthersDone(c, OtherStep(c, v, actions[0]), actions[1..])
  }

  /** A send by the event handler. */
  function Sent(c: Config, v: View, result: SendResult): View {
    if v.state == Connected && (result == WriteFails || (result == Written && !v.transportOpen)) then
      Aborted(c, Logged(v, Error), Task)
    else v
  }

  function SentAll(c: Config, v: View, results: seq<SendResult>): View
    decreases |results|
  {
    if results == [] then v else SentAll(c, Sent(c, v, results[0]), results[1..])
  }

  /** What other threads do while the client task changes from one lock to both. */
  function Switched(c: Config, v: View, taken: bool, others: seq<Action>, later: seq<Action>): View {
    var w := OthersDone(c, v, others);
    if taken then OthersDone(c, w, later) else w
  }

  datatype ReadEnd = ReadFails | NoFrame | Frame(opcode: Opcode)

  function PartsRead(c: Config, v: View, parts: seq<Read>, opcode: Opcode): (View, ReadEnd)
    decreases |parts|
  {
    if parts == [] then (v, Frame(opcode))
    else if parts[0].fails || !v.transportOpen then (Logged(v, Error), ReadFails)
    else if parts[0].empty && parts[0].opcode == NoOpcode then (v, NoFrame)
    else
      var w := Logged(v, Data);
      PartsRead(c, if parts[0].opcode == CloseFrame then w else SentAll(c, w, parts[0].handler), parts[1..],
                parts[0].opcode)
  }

  /** esp_websocket_client_recv, and whether it succeeds. */
  function Received(c: Config, v: View, env: Env): (View, bool) {
    var (w, end) := PartsRead(c, v, [env.first] + env.more, NoOpcode);
    match end
    case ReadFails => (w, false)
    case NoFrame => (w, true)
    case Frame(Ping) =>
      if c.separateTxLock then (Switched(c, w, env.txLocked, env.others(10), env.others(11)), env.txLocked)
      else (w, true)
    case Frame(Pong) => (w.(waitForPong := false), true)
    case Frame(CloseFrame) => (w.(state := Closing), true)
    case _ => (w, true)
  }

  function ReceivedOrAborted(c: Config, v: View, env: Env): View {
    var (w, ok) := Received(c, v, env);
    if ok then w else Aborted(c, w, Task)
  }

  function InitTurn(c: Config, v: View, env: Env): View {
    var w := Logged(v, BeforeConnect);
    match env.connect
    case Failed => Aborted(c, Logged(w, Error), Task)
    case Redirected => w.(state := Init)
    case Established =>
      var up := SentAll(c, Logged(w.(state := Connected, waitForPong := false, transportOpen := true), ConnectedEvent),
                        env.onConnected);
      if !env.pending then up
      else
        var (r, ok) := Received(c, up, env);
        if ok then OthersDone(c, r, env.others(1)) else Aborted(c, r, Task)
  }

  function ConnectedTurn(c: Config, v: View, env: Env): View {
    if v.closeFrameSent then v
    else
      var both := env.pingDue && c.separateTxLock;
      var w := if both then Switched(c, v, env.txLocked, env.others(2), env.others(3)) else v;
      if both && (!env.txLocked || w.state != Connected) then w
      else
        var p := if env.pingDue then w.(waitForPong := true) else w;
        if env.pongLate && p.waitForPong then Aborted(c, Logged(p, Error), Task) else p
  }

  function ClosingTurn(c: Config, v: View, env: Env): View {
    if v.closeFrameSent then v
    else
      var w := if c.separateTxLock then Switched(c, v, env.txLocked, env.others(4), env.others(5)) else v;
      if c.separateTxLock && (!env.txLocked || w.state != Closing) then w else w.(closeFrameSent := true)
  }

  /** The part of a turn with the lock held. */
  function LockedTurn(c: Config, v: View, env: Env): View {
    match v.state
    case Init => InitTurn(c, v, env)
    case Connected => ConnectedTurn(c, v, env)
    case WaitTimeout => if env.elapsed then v.(state := Init) else v
    case Closing => ClosingTurn(c, v, env)
    case Unknown => v
  }

  /** Polling a connection that is up, and reading from it. */
  function PolledTurn(c: Config, v: View, env: Env): View {
    if env.poll == Nothing then v
    else
      var w := OthersDone(c, v, env.others(7));
      if env.poll == PollFails then Aborted(c, Logged(w, Error), Task) else ReceivedOrAborted(c, w, env)
  }

  /** The connection is closed after the close frame was sent; and whether that ends the loop. */
  function ClosedTurn(c: Config, v: View, env: Env): (View, bool) {
    var w := OthersDone(c, v, env.others(12));
    if c.closeReconnect then
      (Logged(w.(state := WaitTimeout, transportOpen := false), Closed).(closeFrameSent := false), false)
    else (Logged(w.(run := false, state := Unknown), Closed), true)
  }

  /**
    The part after it, which reads the state without the lock, up to three times; and whether it ends
    the loop.
   */
  function UnlockedTurn(c: Config, v: View, env: Env): (View, bool) {
    var a := OthersDone(c, v, env.others(6));
    if a.state == Connected then (PolledTurn(c, a, env), false)
    else
      var b := OthersDone(c, a, env.others(8));
      if b.state == WaitTimeout then (b, false)
      else
        var d := OthersDone(c, b, env.others(9));
        if d.state == Closing && d.closeFrameSent then ClosedTurn(c, d, env) else (d, false)
  }

  /** One turn of the loop of the client task. */
  function TurnOf(c: Config, v: View, env: Env): (View, bool) {
    var (w, stop) := UnlockedTurn(c, LockedTurn(c, OthersDone(c, v, env.others(0)), env), env);
    (OthersDone(c, w, env.others(13)), stop)
  }

  function TurnsOf(c: Config, v: View, envs: seq<Env>): View
    decreases |envs|
  {
    if envs == [] || !v.run then v
    else
      var (w, stop) := TurnOf(c, v, envs[0]);
      if stop then w else TurnsOf(c, w, envs[1..])
  }

  /** esp_websocket_client_task, for at most as many turns as there are environments. */
  function RunOf(c: Config, v: View, transportExists: bool, envs: seq<Env>, last: seq<Action>): View {
    var begun := Logged(v.(run := transportExists, state := Init, closeFrameSent := false), Begin);
    var done := OthersDone(c, TurnsOf(c, begun, envs), last);
    Logged(done, Finish).(transportOpen := false, state := Unknown)
  }

  function Started(): View {
    View(Unknown, false, false, false, false, [], 0)
  }

  // ---------------------------------------------------------------- what every part keeps

  /**
    What holds wherever the client state is stable: the log is legal and is Up exactly while connected
    or closing, and there is a late report for each send of another thread that failed in INIT.
   */
  predicate Legal(v: View) {
    && StatusOf(v.log) != Illegal
    && (StatusOf(v.log) == Up <==> v.state == Connected || v.state == Closing)
    && LateReports(v.log) == v.initFailures
  }

  /** And the transport is open only then, while the loop of the client task goes on. */
  predicate Valid(v: View) {
    Legal(v) && (v.transportOpen ==> v.state == Connected || v.state == Closing)
  }

  /** The steps that the state can take while the client task does nothing. */
  predicate Moves(s: ClientState, t: ClientState) {
    s == t || (s in {Init, Connected} && t in {WaitTimeout, Unknown})
  }

  lemma LogMore(v: View, e: Event)
    ensures var w := Logged(v, e);
            && StatusOf(w.log) == After(StatusOf(v.log), e)
            && LateReports(w.log) == LateReports(v.log) + if e == Disconnected(true) then 1 else 0
  {
    StatusMore(v.log, e);
    LateMore(v.log, e);
  }

  lemma AbortKeeps(c: Config, v: View, t: Thread)
    requires StatusOf(v.log) != Illegal && (StatusOf(v.log) == Up <==> v.state == Connected || v.state == Closing)
    requires t == Task && v.state == Init ==> StatusOf(v.log) == Attempt
    requires LateReports(v.log) + (if t == Other && v.state == Init then 1 else 0) == v.initFailures
    requires v.transportOpen ==> v.state != WaitTimeout && v.state != Unknown
    ensures var w := Aborted(c, v, t);
            && Valid(w) && Moves(v.state, w.state) && w.state !in {Init, Connected}
            && w.closeFrameSent == v.closeFrameSent
  {
    hide StatusOf, LateReports;
    LogMore(v, Disconnected(t == Other && v.state == Init));
    LogMore(v.(transportOpen := false, run := v.run && c.autoReconnect,
               state := if c.autoReconnect then WaitTimeout else Unknown), Disconnected(t == Other && v.state == Init));
  }

  /** An error is found by the client task while it is connected, or has been. */
  lemma FailedKeeps(c: Config, v: View)
    requires Valid(v) && v.state != Init
    ensures var w := Aborted(c, Logged(v, Error), Task);
            Valid(w) && Moves(v.state, w.state) && w.state != Connected && w.closeFrameSent == v.closeFrameSent
  {
    hide StatusOf, LateReports, Aborted;
    LogMore(v, Error);
    AbortKeeps(c, Logged(v, Error), Task);
  }

  lemma {:induction false} OthersKeep(c: Config, v: View, actions: seq<Action>)
    requires Legal(v)
    ensures var w := OthersDone(c, v, actions);
            Legal(w) && (Valid(v) ==> Valid(w)) && Moves(v.state, w.state)
    decreases |actions|
  {
    hide StatusOf, LateReports;
    if actions != [] {
      OtherKeeps(c, v, actions[0]);
      OthersKeep(c, OtherStep(c, v, actions[0]), actions[1..]);
    }
  }

  lemma OtherKeeps(c: Config, v: View, a: Action)
    requires Legal(v)
    ensures var w := OtherStep(c, v, a);
            Legal(w) && (Valid(v) ==> Valid(w)) && Moves(v.state, w.state)
  {
    hide StatusOf, LateReports;
    var w := v.(initFailures := v.initFailures + if v.state == Init then 1 else 0);
    LogMore(w, Error);
    if Valid(v) || v.state in {Init, Connected} {
      AbortKeeps(c, Logged(w, Error), Other);
    }
  }

  lemma {:induction false} SendsKeep(c: Config, v: View, results: seq<SendResult>)
    requires Valid(v) && v.state != Init
    ensures var w := SentAll(c, v, results);
            Valid(w) && Moves(v.state, w.state) && w.closeFrameSent == v.closeFrameSent
    decreases |results|
  {
    hide Valid, Aborted;
    if results != [] {
      FailedKeeps(c, v);
      SendsKeep(c, Sent(c, v, results[0]), results[1..]);
    }
  }

  lemma SwitchKeeps(c: Config, v: View, taken: bool, others: seq<Action>, later: seq<Action>)
    requires Valid(v)
    ensures Valid(Switched(c, v, taken, others, later)) && Moves(v.state, Switched(c, v, taken, others, later).state)
  {
    hide StatusOf, LateReports, OthersDone;
    OthersKeep(c, v, others);
    OthersKeep(c, OthersDone(c, v, others), later);
  }

  lemma PlainEvent(v: View, e: Event)
    requires Valid(v) && e in {Begin, Data, Error, Finish}
    ensures Valid(Logged(v, e))
  {
    hide StatusOf, LateReports;
    LogMore(v, e);
  }

  lemma {:induction false} PartsKeep(c: Config, v: View, parts: seq<Read>, opcode: Opcode)
    requires Valid(v) && Moves(Connected, v.state) && (opcode == CloseFrame ==> v.state == Connected)
    ensures var (w, end) := PartsRead(c, v, parts, opcode);
            Valid(w) && Moves(Connected, w.state) && (end == Frame(CloseFrame) ==> w.state == Connected)
    decreases |parts|
  {
    if parts != [] {
      PlainEvent(v, Error);
      PlainEvent(v, Data);
      SendsKeep(c, Logged(v, Data), parts[0].handler);
      var w := if parts[0].opcode == CloseFrame then Logged(v, Data) else SentAll(c, Logged(v, Data), parts[0].handler);
      if v.transportOpen {
        assert v.state == Connected;
      }
      hide Valid, SentAll;
      if !parts[0].fails && v.transportOpen {
        PartsKeep(c, w, parts[1..], parts[0].opcode);
      }
    }
  }

  lemma ReceiveKeeps(c: Config, v: View, env: Env)
    requires Valid(v) && Moves(Connected, v.state)
    ensures var (w, ok) := Received(c, v, env);
            Valid(w) && w.state != Init
  {
    hide StatusOf, LateReports, PartsRead, OthersDone, Switched;
    var parts := [env.first] + env.more;
    PartsKeep(c, v, parts, NoOpcode);
    SwitchKeeps(c, PartsRead(c, v, parts, NoOpcode).0, env.txLocked, env.others(10), env.others(11));
  }

  lemma AbortValid(c: Config, v: View)
    requires Valid(v) && v.state != Init
    ensures Valid(Aborted(c, v, Task))
  {
    hide StatusOf, LateReports, Aborted;
    AbortKeeps(c, v, Task);
  }

  lemma InitKeeps(c: Config, v: View, env: Env)
    requires Valid(v) && v.state == Init
    ensures Valid(InitTurn(c, v, env))
  {
    hide StatusOf, LateReports, SentAll, Received, OthersDone, Aborted;
    var w := Logged(v, BeforeConnect);
    LogMore(v, BeforeConnect);
    match env.connect
    case Failed =>
      LogMore(w, Error);
      AbortKeeps(c, Logged(w, Error), Task);
    case Redirected =>
    case Established =>
      var begun := w.(state := Connected, waitForPong := false, transportOpen := true);
      LogMore(begun, ConnectedEvent);
      SendsKeep(c, Logged(begun, ConnectedEvent), env.onConnected);
      var up := SentAll(c, Logged(begun, ConnectedEvent), env.onConnected);
      ReceiveKeeps(c, up, env);
      var r := Received(c, up, env).0;
      hide Valid;
      AbortValid(c, r);
      assert Legal(r) by {
        LegalIfValid(r);
      }
      OthersKeep(c, r, env.others(1));
  }

  lemma LegalIfValid(v: View)
    requires Valid(v)
    ensures Legal(v)
  {
  }

  lemma ConnectedKeeps(c: Config, v: View, env: Env)
    requires Valid(v) && v.state == Connected
    ensures Valid(ConnectedTurn(c, v, env))
  {
    hide StatusOf, LateReports, Switched, Aborted;
    SwitchKeeps(c, v, env.txLocked, env.others(2), env.others(3));
    var w := if env.pingDue && c.separateTxLock then Switched(c, v, env.txLocked, env.others(2), env.others(3)) else v;
    FailedKeeps(c, if env.pingDue then w.(waitForPong := true) else w);
  }

  lemma ClosingKeeps(c: Config, v: View, env: Env)
    requires Valid(v) && v.state == Closing
    ensures Valid(ClosingTurn(c, v, env))
  {
    hide StatusOf, LateReports, Switched;
    SwitchKeeps(c, v, env.txLocked, env.others(4), env.others(5));
  }

  lemma LockedKeeps(c: Config, v: View, env: Env)
    requires Valid(v)
    ensures Valid(LockedTurn(c, v, env))
  {
    hide StatusOf, LateReports, InitTurn, ConnectedTurn, ClosingTurn;
    match v.state
    case Init => InitKeeps(c, v, env);
    case Connected => ConnectedKeeps(c, v, env);
    case Closing => ClosingKeeps(c, v, env);
    case _ =>
  }

  lemma UnlockedKeeps(c: Config, v: View, env: Env)
    requires Valid(v)
    ensures var (w, stop) := UnlockedTurn(c, v, env);
            Legal(w) && (!stop ==> Valid(w))
  {
    hide StatusOf, LateReports, OthersDone, Received, Aborted;
    var a := OthersDone(c, v, env.others(6));
    OthersKeep(c, v, env.others(6));
    if a.state == Connected {
      var w := OthersDone(c, a, env.others(7));
      OthersKeep(c, a, env.others(7));
      FailedKeeps(c, w);
      ReceiveKeeps(c, w, env);
      AbortValid(c, Received(c, w, env).0);
    } else {
      var b := OthersDone(c, a, env.others(8));
      OthersKeep(c, a, env.others(8));
      var d := OthersDone(c, b, env.others(9));
      OthersKeep(c, b, env.others(9));
      var w := OthersDone(c, d, env.others(12));
      OthersKeep(c, d, env.others(12));
      LogMore(w, Closed);
    }
  }

  lemma TurnKeeps(c: Config, v: View, env: Env)
    requires Valid(v)
    ensures var (w, stop) := TurnOf(c, v, env);
            Legal(w) && (!stop ==> Valid(w))
  {
    hide Legal, Valid, OthersDone, LockedTurn, UnlockedTurn;
    LegalIfValid(v);
    OthersKeep(c, v, env.others(0));
    var w := OthersDone(c, v, env.others(0));
    LockedKeeps(c, w, env);
    UnlockedKeeps(c, LockedTurn(c, w, env), env);
    OthersKeep(c, UnlockedTurn(c, LockedTurn(c, w, env), env).0, env.others(13));
  }

  lemma {:induction false} TurnsKeep(c: Config, v: View, envs: seq<Env>)
    requires Valid(v)
    ensures Legal(TurnsOf(c, v, envs))
    decreases |envs|
  {
    hide Valid, Legal, TurnOf;
    LegalIfValid(v);
    if envs != [] && v.run {
      TurnKeeps(c, v, envs[0]);
      if !TurnOf(c, v, envs[0]).1 {
        TurnsKeep(c, TurnOf(c, v, envs[0]).0, envs[1..]);
      }
    }
  }

  /**
    Every run of the client task, of any length and with any interleaving, has a legal log that ends in
    FINISH, and in it one late report for each send of another thread that failed in INIT.
   */
  lemma RunIsLegal(c: Config, transportExists: bool, envs: seq<Env>, last: seq<Action>)
    ensures var r := RunOf(c, Started(), transportExists, envs, last);
            && StatusOf(r.log) != Illegal && r.log[|r.log| - 1..] == [Finish]
            && LateReports(r.log) == r.initFailures
  {
    hide TurnsOf, OthersDone;
    var first := Started().(run := transportExists, state := Init, closeFrameSent := false);
    NothingLogged();
    LogMore(first, Begin);
    TurnsKeep(c, Logged(first, Begin), envs);
    var done := TurnsOf(c, Logged(first, Begin), envs);
    OthersKeep(c, done, last);
    LogMore(OthersDone(c, done, last), Finish);
  }

  lemma NothingLogged()
    ensures StatusOf([]) == NoAttempt && LateReports([]) == 0
  {
  }

  /** So if no other thread's send fails in INIT, every loss is reported once before the next attempt. */
  lemma LossesAreReportedOnce(c: Config, transportExists: bool, envs: seq<Env>, last: seq<Action>, i: nat, n: nat)
    requires var r := RunOf(c, Started(), transportExists, envs, last);
             && r.initFailures == 0 && i < n <= |r.log| && IsLoss(r.log[i])
             && forall k :: i < k < n ==> r.log[k] != BeforeConnect
    ensures forall j :: i < j < n ==> !IsLoss(RunOf(c, Started(), transportExists, envs, last).log[j])
  {
    hide RunOf, StatusOf;
    var log := RunOf(c, Started(), transportExists, envs, last).log;
    RunIsLegal(c, transportExists, envs, last);
    NoneLate(log);
    ReportedOnceExactly(log, i, n);
  }

  /** An environment in which nothing happens. */
  function Quiet(): Env {
    Env(Established, [], false, Read(true, NoOpcode, false, []), [], true, false, false, true, Nothing, _ => [])
  }

  lemma QuietTurn(c: Config, v: View)
    requires v.state == WaitTimeout
    ensures TurnOf(c, v, Quiet()) == (v.(state := Init), false)
  {
  }

  lemma LosingTurn(c: Config, v: View)
    requires v.state == Init && c.autoReconnect
    ensures var (w, stop) := TurnOf(c, v, Quiet().(poll := PollFails));
            && !stop && w.state == WaitTimeout && w.run == v.run
            && w.log == v.log + [BeforeConnect, ConnectedEvent, Error, Disconnected(false)]
  {
  }

  /**
    A thread that tested for a connection and then waited for the lock can report a loss that has
    been reported before: the connection is lost, the client waits and returns to INIT, and only then
    does the thread's send fail. This is the log of a whole run of the client task.
   */
  lemma ReportsALossTwice(c: Config)
    requires c.autoReconnect
    ensures RunOf(c, Started(), true, [Quiet().(poll := PollFails), Quiet()], [SendFails]).log ==
            [Begin, BeforeConnect, ConnectedEvent, Error, Disconnected(false), Error, Disconnected(true), Finish]
  {
    hide TurnOf, Quiet;
    var a := Logged(Started().(run := true, state := Init, closeFrameSent := false), Begin);
    LosingTurn(c, a);
    var b := TurnOf(c, a, Quiet().(poll := PollFails)).0;
    QuietTurn(c, b);
    var d := TurnOf(c, b, Quiet()).0;
    var envs := [Quiet().(poll := PollFails), Quiet()];
    assert envs[1..] == [Quiet()] && envs[1..][1..] == [];
    assert TurnsOf(c, d, []) == d && TurnsOf(c, b, envs[1..]) == d && TurnsOf(c, a, envs) == d;
    assert [SendFails][1..] == [];
    assert OthersDone(c, d, [SendFails]) == SenderFailed(c, d);
  }
}
