/**
  The code of the WebSocket client task, with its two locks: every method computes the function that
  `WsLifecycle` gives for it and leaves both locks as deep as it found them.
 */
module WsClient {
  import opened WsLifecycle

  class Client {
    const config: Config
    var state: ClientState
    var run: bool
    var closeFrameSent: bool
    var waitForPong: bool
    var transportOpen: bool
    var log: seq<Event>
    var lockDepth: nat
    var txDepth: nat
    ghost var initFailures: nat

    ghost function Now(): View
      reads this
    {
      View(state, run, closeFrameSent, waitForPong, transportOpen, log, initFailures)
    }

    /** Both locks are as deep as at the start of the call. */
    twostate predicate LocksRestored()
      reads this
    {
      lockDepth == old(lockDepth) && txDepth == old(txDepth)
    }

    /** esp_websocket_client_init and _start, up to the creation of the client task. */
    constructor (config: Config)
      ensures this.config == config && Now() == Started() && lockDepth == 0 && txDepth == 0
    {
      this.config, state, run, closeFrameSent, waitForPong, transportOpen := config, Unknown, false, false, false,
          false;
      log, lockDepth, txDepth, initFailures := [], 0, 0, 0;
    }

    method Dispatch(e: Event)
      modifies this`log
      ensures Now() == Logged(old(Now()), e)
    {
      log := log + [e];
    }

    /** esp_websocket_client_abort_connection, with the lock held. */
    method AbortConnection(t: Thread)
      modifies this`state, this`run, this`transportOpen, this`log
      ensures Now() == Aborted(config, old(Now()), t)
    {
      if state == Closing || state == Unknown || state == WaitTimeout {
        return;
      }
      var late := t == Other && state == Init;
      transportOpen := false;
      if !config.autoReconnect {
        run := false;
        state := Unknown;
      } else {
        state := WaitTimeout;
      }
      Dispatch(Disconnected(late));
    }

    /** Another thread's failed send: with either lock configuration it ends with these steps under the lock. */
    method SenderFails()
      modifies this`state, this`run, this`transportOpen, this`log, this`initFailures
      ensures Now() == SenderFailed(config, old(Now()))
    {
      if state == Init {
        initFailures := initFailures + 1;
      }
      Dispatch(Error);
      AbortConnection(Other);
    }

    /** Sections of other threads while the client task does not hold the lock. */
    method Others(actions: seq<Action>)
      requires lockDepth == 0
      modifies this`state, this`run, this`closeFrameSent, this`transportOpen, this`log, this`initFailures
      ensures Now() == OthersDone(config, old(Now()), actions)
    {
      hide SenderFailed;
      var i := 0;
      while i < |actions|
        invariant 0 <= i <= |actions|
        invariant OthersDone(config, Now(), actions[i..]) == OthersDone(config, old(Now()), actions)
        invariant waitForPong == old(waitForPong)
      {
        assert actions[i..][1..] == actions[i + 1..];
        match actions[i] {
          case SendFails => SenderFails();
          case Stop => run := false;
          case CloseSent => closeFrameSent := true;
        }
        i := i + 1;
      }
    }

    /** A send by the event handler, in the client task itself, which holds the lock. */
    method HandlerSend(result: SendResult)
      requires lockDepth > 0
      modifies this
      ensures Now() == Sent(config, old(Now()), result) && LocksRestored()
    {
      if state != Connected {
        return;
      }
      if result == NotLocked {
        return;
      }
      if config.separateTxLock {
        txDepth := txDepth + 1;
      } else {
        lockDepth := lockDepth + 1;
      }
      if result == WriteFails || (result == Written && !transportOpen) {
        if config.separateTxLock {
          txDepth := txDepth - 1;
          lockDepth := lockDepth + 1;
          Dispatch(Error);
          AbortConnection(Task);
          lockDepth := lockDepth - 1;
          return;
        }
        Dispatch(Error);
        AbortConnection(Task);
      }
      if config.separateTxLock {
        txDepth := txDepth - 1;
      } else {
        lockDepth := lockDepth - 1;
      }
    }

    method HandlerSends(results: seq<SendResult>)
      requires lockDepth > 0
      modifies this
      ensures Now() == SentAll(config, old(Now()), results) && LocksRestored()
    {
      hide Sent;
      var i := 0;
      while i < |results|
        invariant 0 <= i <= |results| && LocksRestored()
        invariant SentAll(config, Now(), results[i..]) == SentAll(config, old(Now()), results)
      {
        assert results[i..][1..] == results[i + 1..];
        HandlerSend(results[i]);
        i := i + 1;
      }
    }

    /** Gives up the lock, takes the transmit lock if it can, and takes the lock again. */
    method SwitchToTxLock(taken: bool, others: seq<Action>, othersLater: seq<Action>)
      requires lockDepth == 1
      modifies this
      ensures Now() == Switched(config, old(Now()), taken, others, othersLater)
      ensures lockDepth == 1 && txDepth == old(txDepth) + (if taken then 1 else 0)
    {
      hide OthersDone;
      lockDepth := lockDepth - 1;
      Others(others);
      if !taken {
        lockDepth := lockDepth + 1;
        return;
      }
      txDepth := txDepth + 1;
      Others(othersLater);
      lockDepth := lockDepth + 1;
    }

    /** The loop of esp_websocket_client_recv over the parts of a frame. */
    method ReadParts(parts: seq<Read>) returns (end: ReadEnd)
      requires lockDepth > 0
      modifies this
      ensures (Now(), end) == PartsRead(config, old(Now()), parts, NoOpcode) && LocksRestored()
    {
      hide SentAll;
      var opcode := NoOpcode;
      var i := 0;
      while i < |parts|
        invariant 0 <= i <= |parts| && LocksRestored()
        invariant PartsRead(config, Now(), parts[i..], opcode) == PartsRead(config, old(Now()), parts, NoOpcode)
      {
        assert parts[i..][1..] == parts[i + 1..];
        if parts[i].fails || !transportOpen {
          Dispatch(Error);
          return ReadFails;
        }
        opcode := parts[i].opcode;
        if parts[i].empty && opcode == NoOpcode {
          return NoFrame;
        }
        Dispatch(Data);
        if opcode != CloseFrame {
          HandlerSends(parts[i].handler);
        }
        i := i + 1;
      }
      end := Frame(opcode);
    }

    /** esp_websocket_client_recv. */
    method Recv(env: Env) returns (ok: bool)
      requires lockDepth == 1
      modifies this
      ensures (Now(), ok) == Received(config, old(Now()), env) && LocksRestored()
    {
      hide PartsRead, Switched;
      var end := ReadParts([env.first] + env.more);
      match end
      case ReadFails => ok := false;
      case NoFrame => ok := true;
      case Frame(opcode) =>
        ok := true;
        if opcode == Ping {
          if config.separateTxLock {
            SwitchToTxLock(env.txLocked, env.others(10), env.others(11));
            if !env.txLocked {
              return false;
            }
            txDepth := txDepth - 1;
          }
        } else if opcode == Pong {
          waitForPong := false;
        } else if opcode == CloseFrame {
          state := Closing;
        }
    }

    /** The INIT case of the loop of the client task. */
    method HandleInit(env: Env)
      requires lockDepth == 1
      modifies this
      ensures Now() == InitTurn(config, old(Now()), env) && LocksRestored()
    {
      hide Received, OthersDone, SentAll;
      Dispatch(BeforeConnect);
      if env.connect == Failed {
        Dispatch(Error);
        AbortConnection(Task);
        return;
      }
      if env.connect == Redirected {
        state := Init;
        return;
      }
      state, waitForPong, transportOpen := Connected, false, true;
      Dispatch(ConnectedEvent);
      HandlerSends(env.onConnected);
      if env.pending {
        var ok := Recv(env);
        if ok {
          lockDepth := lockDepth - 1;
          Others(env.others(1));
          lockDepth := lockDepth + 1;
        } else {
          AbortConnection(Task);
        }
      }
    }

    /** The CONNECTED case: PING and the wait for its PONG. */
    method HandleConnected(env: Env)
      requires lockDepth == 1
      modifies this
      ensures Now() == ConnectedTurn(config, old(Now()), env) && LocksRestored()
    {
      hide Switched;
      if closeFrameSent {
        return;
      }
      if env.pingDue {
        if config.separateTxLock {
          SwitchToTxLock(env.txLocked, env.others(2), env.others(3));
          if !env.txLocked {
            return;
          }
          if state != Connected {
            txDepth := txDepth - 1;
            return;
          }
          txDepth := txDepth - 1;
        }
        waitForPong := true;
      }
      if env.pongLate && waitForPong {
        Dispatch(Error);
        AbortConnection(Task);
      }
    }

    /** The CLOSING case: the close frame is echoed once. */
    method HandleClosing(env: Env)
      requires lockDepth == 1
      modifies this
      ensures Now() == ClosingTurn(config, old(Now()), env) && LocksRestored()
    {
      hide Switched;
      if !closeFrameSent {
        if config.separateTxLock {
          SwitchToTxLock(env.txLocked, env.others(4), env.others(5));
          if !env.txLocked {
            return;
          }
          txDepth := txDepth - 1;
          if state != Closing {
            return;
          }
        }
        closeFrameSent := true;
      }
    }

    /** Polling a connection that is up, and reading from it. */
    method PollTurn(env: Env)
      requires lockDepth == 0
      modifies this
      ensures Now() == PolledTurn(config, old(Now()), env) && LocksRestored()
    {
      hide OthersDone, Received;
      if env.poll == PollFails {
        Others(env.others(7));
        lockDepth := lockDepth + 1;
        Dispatch(Error);
        AbortConnection(Task);
        lockDepth := lockDepth - 1;
      } else if env.poll == Readable {
        Others(env.others(7));
        lockDepth := lockDepth + 1;
        var ok := Recv(env);
        if !ok {
          AbortConnection(Task);
        }
        lockDepth := lockDepth - 1;
      }
    }

    /** Waiting for the server to close the connection. */
    method WaitClosed(env: Env) returns (stop: bool)
      requires lockDepth == 0
      modifies this
      ensures (Now(), stop) == ClosedTurn(config, old(Now()), env) && LocksRestored()
    {
      hide OthersDone;
      Others(env.others(12));
      if config.closeReconnect {
        lockDepth := lockDepth + 1;
        state, transportOpen := WaitTimeout, false;
        Dispatch(Closed);
        closeFrameSent := false;
        lockDepth := lockDepth - 1;
        stop := false;
      } else {
        run, state := false, Unknown;
        Dispatch(Closed);
        stop := true;
      }
    }

    /** The part of a turn after the lock is given back; other threads run between its reads of the state. */
    method AfterTurn(env: Env) returns (stop: bool)
      requires lockDepth == 0
      modifies this
      ensures (Now(), stop) == UnlockedTurn(config, old(Now()), env) && LocksRestored()
    {
      hide OthersDone, PolledTurn, ClosedTurn;
      stop := false;
      Others(env.others(6));
      if state == Connected {
        PollTurn(env);
        return;
      }
      Others(env.others(8));
      if state == WaitTimeout {
        return;
      }
      Others(env.others(9));
      if state == Closing && closeFrameSent {
        stop := WaitClosed(env);
      }
    }

    /** One turn of the loop of the client task. */
    method Turn(env: Env) returns (stop: bool)
      requires lockDepth == 0
      modifies this
      ensures (Now(), stop) == TurnOf(config, old(Now()), env) && LocksRestored()
    {
      hide InitTurn, ConnectedTurn, ClosingTurn, UnlockedTurn, OthersDone;
      Others(env.others(0));
      lockDepth := lockDepth + 1;
      match state {
        case Init => HandleInit(env);
        case Connected => HandleConnected(env);
        case WaitTimeout =>
          if env.elapsed {
            state := Init;
          }
        case Closing => HandleClosing(env);
        case Unknown =>
      }
      lockDepth := lockDepth - 1;
      stop := AfterTurn(env);
      Others(env.others(13));
    }

    /** esp_websocket_client_task, for as many turns as there are environments. */
    method RunTask(transportExists: bool, envs: seq<Env>, last: seq<Action>)
      requires lockDepth == 0 && txDepth == 0
      modifies this
      ensures Now() == RunOf(config, old(Now()), transportExists, envs, last) && LocksRestored()
    {
      hide TurnOf, OthersDone;
      run := transportExists;
      state, closeFrameSent := Init, false;
      Dispatch(Begin);
      ghost var begun := Now();
      var i := 0;
      var stop := false;
      while run && !stop && i < |envs|
        invariant 0 <= i <= |envs| && LocksRestored()
        invariant TurnsOf(config, begun, envs) == if stop then Now() else TurnsOf(config, Now(), envs[i..])
        decreases |envs| - i
      {
        assert envs[i..][1..] == envs[i + 1..];
        stop := Turn(envs[i]);
        i := i + 1;
      }
      Others(last);
      Dispatch(Finish);
      transportOpen := false;
      state := Unknown;
    }
  }
}
