// The handlers of main/eq3_main.c with their shared state (cmdqueue,
// current_action, nextcmd, reboot_requested), each proved to make the
// corresponding step of Eq3Machine.
module Eq3Hub {
  import opened Bytes
  import opened Eq3Commands
  import opened Eq3Machine
  import opened Eq3Queue
  import opened Eq3Runs

  class EventHub {
    const queue: CommandQueue
    var cmdLen: ValueLen
    const cmdVal: array<byte>
    var cmdBleda: Address
    var getServer: bool
    var connectionOpen: bool
    var inProgress: bool
    var opTime: int
    var outstanding: bool
    var delay: NextCmd
    var rebootRequested: bool
    var remoteBda: Address
    ghost var hist: History

    ghost predicate Valid()
      reads this, queue, queue.nodes, cmdVal
    {
      queue.Valid() && cmdVal.Length == CMD_VAL_SIZE
    }

    ghost function Abs(): (w: World)
      requires Valid()
      reads this, queue, queue.nodes, cmdVal
    {
      World(Hub(queue.Contents(),
                Action(cmdLen, cmdVal[..], cmdBleda, getServer, connectionOpen, inProgress, opTime, outstanding),
                delay, rebootRequested, remoteBda),
            hist)
    }

    constructor (a: Address)
      ensures Valid() && fresh(queue) && fresh(queue.nodes) && fresh(cmdVal)
      ensures Abs() == Boot(cmdVal[..], a) && Inv(Abs())
    {
      queue := new CommandQueue();
      cmdVal := new byte[CMD_VAL_SIZE](i => 0);
      cmdLen, cmdBleda := 0, a;
      getServer, connectionOpen, inProgress, opTime, outstanding := false, false, false, 0, true;
      delay, rebootRequested, remoteBda := NextCmd(true, StartWifi, 5), false, a;
      hist := NothingSeen;
    }

    ghost method Emits(e: Effect)
      requires Valid()
      modifies `hist
      ensures Valid() && Abs() == Emit(old(Abs()), e)
    {
      hist := Observe(hist, e);
    }

    method RunTimer()
      requires Valid()
      modifies `outstanding, `hist
      ensures Valid() && Abs() == Eq3Machine.RunTimer(old(Abs()))
    {
      if !outstanding {
        outstanding := true;
        Emits(StartTimer);
      }
    }

    method SetNextCmd(cmd: Delayed, time: int)
      requires Valid()
      modifies `delay
      ensures delay == Eq3Machine.SetNextCmd(old(delay), cmd, time)
    {
      if !delay.running {
        delay := NextCmd(true, cmd, time);
      }
    }

    method CommandComplete(success: bool) returns (rc: Outcome)
      requires Valid()
      modifies `hist, queue, queue.nodes
      ensures Valid() && Abs() == Eq3Machine.CommandComplete(old(Abs()), success)
      ensures rc == if success then Done else FailureOutcome(old(queue.Contents()))
      ensures forall n :: n in queue.nodes ==> n in old(queue.nodes)
    {
      ghost var q := queue.Contents();
      rc := queue.CommandComplete(success);
      if q != [] {
        Emits(if success then Completed(q[0].req) else if rc == Failed then Exhausted(q[0].req) else Retried(q[0].req));
      }
    }

    /** setnextcmd(EQ3_DISCONNECT, 2); runtimer(); */
    method DisconnectLater()
      requires Valid()
      modifies `delay, `outstanding, `hist
      ensures Valid() && Abs() == Eq3Machine.DisconnectLater(old(Abs()))
    {
      SetNextCmd(Disconnect, 2);
      RunTimer();
    }

    method GattcCommandError(bleda: Address)
      requires Valid()
      modifies `delay, `outstanding, `hist, queue, queue.nodes
      ensures Valid() && Abs() == Eq3Machine.GattcCommandError(old(Abs()), bleda)
      ensures forall n :: n in queue.nodes ==> n in old(queue.nodes)
    {
      var rc := CommandComplete(false);
      if rc == Failed {
        Emits(Report(bleda));
      }
      DisconnectLater();
    }

    method CommandSucceeded()
      requires Valid()
      modifies `delay, `outstanding, `hist, queue, queue.nodes
      ensures Valid() && Abs() == Eq3Machine.CommandSucceeded(old(Abs()))
      ensures forall n :: n in queue.nodes ==> n in old(queue.nodes)
    {
      var rc := CommandComplete(true);
      DisconnectLater();
    }

    /** Writes the leading bytes of the characteristic value and its length. */
    method PutValue(v: seq<byte>)
      requires Valid() && 2 <= |v| <= 7
      modifies `cmdLen, cmdVal
      ensures cmdVal[..] == v + old(cmdVal[..])[|v|..] && cmdLen == |v|
    {
      var i := 0;
      while i < |v|
        invariant 0 <= i <= |v|
        invariant forall k :: 0 <= k < i ==> cmdVal[k] == v[k]
        invariant forall k :: i <= k < CMD_VAL_SIZE ==> cmdVal[k] == old(cmdVal[k])
      {
        cmdVal[i] := v[i];
        i := i + 1;
      }
      cmdLen := |v|;
    }

    method SetupCommand()
      requires Valid()
      modifies `cmdLen, `cmdBleda, cmdVal
      ensures queue.cmdqueue == null ==>
              cmdVal[..] == old(cmdVal[..]) && cmdLen == old(cmdLen) && cmdBleda == old(cmdBleda)
      ensures queue.cmdqueue != null ==>
                var w := old(Abs());
                Abs() == w.(hub := w.hub.(action := Eq3Machine.SetupCommand(w.hub.action, queue.Contents()[0].req)))
    {
      if queue.cmdqueue != null {
        var head := queue.cmdqueue;
        match head.cmd {
        case SetTime => PutValue([0x03] + head.cmdparms);
        case Boost => PutValue([0x45, 0x01]);
        case Unboost => PutValue([0x45, 0x00]);
        case Auto => PutValue([0x40, 0x00]);
        case Manual => PutValue([0x40, 0x40]);
        case SetTemp => PutValue([0x41, head.cmdparms[0]]);
        case Offset => PutValue([0x13, head.cmdparms[0]]);
        case Lock => PutValue([0x80, 1]);
        case Unlock => PutValue([0x80, 0]);
        case Eco =>
        }
        cmdBleda := head.bleda;
      }
    }

    method RunCommand()
      requires Valid()
      modifies `cmdLen, `cmdBleda, `inProgress, `opTime, `hist, cmdVal
      ensures Valid() && Abs() == Eq3Machine.RunCommand(old(Abs()))
    {
      if queue.cmdqueue != null {
        hide Encode, Eq3Machine.SetupCommand, CommandQueue.Valid;
        SetupCommand();
        ghost var w := Abs();
        inProgress, opTime := true, 0;
        assert Abs() == w.(hub := w.hub.(action := w.hub.action.(inProgress := true, opTime := 0)));
        Emits(Started(queue.Contents()[0]));
        Emits(GattOpen(cmdBleda));
      }
    }

    /** handle_request, once the text is parsed. */
    method HandleRequest(r: Request)
      requires Valid()
      modifies `outstanding, `hist, queue, queue.nodes
      ensures Valid() && Abs() == OnRequest(old(Abs()), r)
      ensures forall n :: n in queue.nodes ==> n in old(queue.nodes) || fresh(n)
    {
      hide IsStillPending, StillPending;
      var newcmd := new CommandNode(r);
      ghost var q := queue.Contents();
      queue.Enqueue(newcmd);
      Emits(if IsStillPending(q, r) then Dropped(r) else Accepted(r));
      if !inProgress {
        RunTimer();
      }
    }

    method ScheduleReboot()
      requires Valid()
      modifies `rebootRequested, `outstanding, `hist
      ensures Valid() && Abs() == OnScheduleReboot(old(Abs()))
    {
      rebootRequested := true;
      if !inProgress {
        RunTimer();
      }
    }

    method WifiDone(connected: bool)
      requires Valid()
      modifies `delay, `outstanding, `hist
      ensures Valid() && Abs() == OnWifiDone(old(Abs()), connected)
    {
      if !connected {
        SetNextCmd(RestartWifi, 300);
        RunTimer();
      } else if delay.cmd == RestartWifi {
        delay := delay.(countdown := 0, running := false);
      }
    }

    /** The timer branch of app_main's loop. */
    method TimerEvent()
      requires Valid()
      modifies this, queue, queue.nodes, cmdVal
      ensures Valid() && Abs() == OnTick(old(Abs()))
      ensures forall n :: n in queue.nodes ==> n in old(queue.nodes)
    {
      outstanding := false;
      hist := hist.(pendingTicks := hist.pendingTicks - 1);
      assert Abs() == TickDelivered(old(Abs()));
      if delay.running {
        DelayRuns();
      } else if !inProgress {
        Idle();
      } else {
        Watchdog();
      }
    }

    method Idle()
      requires Valid()
      modifies `cmdLen, `cmdBleda, `inProgress, `opTime, `hist, cmdVal
      ensures Valid() && Abs() == IdleTick(old(Abs()))
    {
      RunCommand();
      if !inProgress && rebootRequested {
        Emits(Reboot);
      }
    }

    method Watchdog()
      requires Valid()
      modifies `inProgress, `opTime, `delay, `outstanding, `hist, queue, queue.nodes
      ensures Valid() && Abs() == WatchdogTick(old(Abs()))
      ensures forall n :: n in queue.nodes ==> n in old(queue.nodes)
    {
      hide Eq3Machine.GattcCommandError, Eq3Machine.RunTimer;
      ghost var w := Abs();
      opTime := opTime + 1;
      assert Abs() == w.(hub := w.hub.(action := w.hub.action.(opTime := w.hub.action.opTime + 1)));
      if opTime >= BLE_OPERATION_TIMEOUT {
        TimedOut();
      } else {
        RunTimer();
      }
    }

    /** The operation is given up. */
    method TimedOut()
      requires Valid()
      modifies `inProgress, `opTime, `delay, `outstanding, `hist, queue, queue.nodes
      ensures var w := old(Abs());
              Valid() && Abs() == Eq3Machine.GattcCommandError(
                w.(hub := w.hub.(action := w.hub.action.(inProgress := false, opTime := 0))), w.hub.action.cmdBleda)
      ensures forall n :: n in queue.nodes ==> n in old(queue.nodes)
    {
      hide Eq3Machine.GattcCommandError;
      ghost var w := Abs();
      inProgress, opTime := false, 0;
      assert Abs() == w.(hub := w.hub.(action := w.hub.action.(inProgress := false, opTime := 0)));
      GattcCommandError(cmdBleda);
    }

    method FireDelayed()
      requires Valid()
      modifies `outstanding, `hist
      ensures Valid() && Abs() == Fire(old(Abs()))
    {
      Emits(Fired(delay.cmd));
      match delay.cmd
      case Disconnect =>
        if connectionOpen {
          Emits(GattClose);
        }
        RunTimer();
      case StartWifi =>
      case RestartWifi =>
    }

    method DelayRuns()
      requires Valid() && delay.running
      modifies `delay, `outstanding, `hist
      ensures Valid() && Abs() == DelayTick(old(Abs()))
    {
      hide Eq3Machine.RunTimer, Fire;
      ghost var w := Abs();
      delay := delay.(countdown := delay.countdown - 1);
      assert Abs() == w.(hub := w.hub.(delay := delay));
      if delay.countdown <= 0 {
        FireDelayed();
        ghost var w2 := Abs();
        delay := delay.(running := false);
        assert Abs() == w2.(hub := w2.hub.(delay := delay));
      } else {
        RunTimer();
      }
    }

    /** The shape of most GATT events: an error status fails the current command. */
    method FailsUnless(ok: bool, bleda: Address)
      requires Valid()
      modifies `delay, `outstanding, `hist, queue, queue.nodes
      ensures Valid() && Abs() == if ok then old(Abs()) else Eq3Machine.GattcCommandError(old(Abs()), bleda)
      ensures forall n :: n in queue.nodes ==> n in old(queue.nodes)
    {
      if !ok {
        GattcCommandError(bleda);
      }
    }

    method OpenEvent(ok: bool)
      requires Valid()
      modifies this, queue, queue.nodes
      ensures Valid() && Abs() == OnGatt(old(Abs()), Opened(ok))
      ensures forall n :: n in queue.nodes ==> n in old(queue.nodes)
    {
      hide Eq3Machine.GattcCommandError;
      FailsUnless(ok, cmdBleda);
      ghost var w := Abs();
      if ok {
        connectionOpen := true;
        assert Abs() == w.(hub := w.hub.(action := w.hub.action.(connectionOpen := true)));
      }
    }

    method CloseEvent(ok: bool)
      requires Valid()
      modifies `connectionOpen, `outstanding, `hist
      ensures Valid() && Abs() == OnGatt(old(Abs()), Closed(ok))
    {
      ghost var w := Abs();
      if ok {
        connectionOpen := false;
      }
      assert Abs() == w.(hub := w.hub.(action := w.hub.action.(connectionOpen := !ok && w.hub.action.connectionOpen)));
      RunTimer();
    }

    method DisconnectEvent(byLocalHost: bool)
      requires Valid()
      modifies this, queue, queue.nodes
      ensures Valid() && Abs() == OnDisconnected(old(Abs()), byLocalHost)
      ensures forall n :: n in queue.nodes ==> n in old(queue.nodes)
    {
      ghost var w := Abs();
      getServer := false;
      inProgress := false;
      assert Abs() == w.(hub := w.hub.(action := w.hub.action.(getServer := false, inProgress := false)));
      FailsUnless(byLocalHost, cmdBleda);
    }

    method PeerEvent(bda: Address)
      requires Valid()
      modifies `remoteBda
      ensures Valid() && Abs() == OnGatt(old(Abs()), Connected(bda))
    {
      ghost var w := Abs();
      remoteBda := bda;
      assert Abs() == w.(hub := w.hub.(remoteBda := bda));
    }

    method MtuEvent(ok: bool)
      requires Valid()
      modifies `delay, `outstanding, `hist, queue, queue.nodes
      ensures Valid() && Abs() == OnGatt(old(Abs()), MtuSet(ok))
      ensures forall n :: n in queue.nodes ==> n in old(queue.nodes)
    {
      hide Eq3Machine.GattcCommandError;
      FailsUnless(ok, remoteBda);
      if ok {
        Emits(GattSearch);
      }
    }

    method SearchResultEvent(isEq3: bool)
      requires Valid()
      modifies `getServer
      ensures Valid() && Abs() == OnGatt(old(Abs()), SearchResult(isEq3))
    {
      ghost var w := Abs();
      SearchResultIs(w, isEq3);
      hide OnGatt;
      getServer := isEq3 || getServer;
      assert Abs() == w.(hub := w.hub.(action := w.hub.action.(getServer := isEq3 || w.hub.action.getServer)));
    }

    static lemma SearchResultIs(w: World, isEq3: bool)
      ensures OnGatt(w, SearchResult(isEq3)) ==
              w.(hub := w.hub.(action := w.hub.action.(getServer := isEq3 || w.hub.action.getServer)))
    {
    }

    method NotifyReadyEvent(ok: bool)
      requires Valid()
      modifies `delay, `outstanding, `hist, queue, queue.nodes
      ensures Valid() && Abs() == OnGatt(old(Abs()), NotifyReady(ok))
      ensures forall n :: n in queue.nodes ==> n in old(queue.nodes)
    {
      hide Eq3Machine.GattcCommandError;
      FailsUnless(ok, remoteBda);
      if ok {
        assert cmdVal[..][..cmdLen] == cmdVal[..cmdLen];
        Emits(GattWrite(cmdVal[..cmdLen]));
      }
    }

    /** The events that can complete the command. */
    method CommandEvent(ev: Event)
      requires Valid() && (ev.SearchDone? || ev.Notified? || ev.Unregistered? || ev.Written?)
      modifies `delay, `outstanding, `hist, queue, queue.nodes
      ensures Valid() && Abs() == OnGatt(old(Abs()), ev)
      ensures forall n :: n in queue.nodes ==> n in old(queue.nodes)
    {
      CommandCases(Abs(), ev);
      hide OnGatt, Eq3Machine.GattcCommandError, Eq3Machine.CommandSucceeded;
      match ev {
      case SearchDone(ok, count) => FailsUnless(ok && getServer && count > 0, remoteBda);
      case Notified(unregistering) =>
        if !unregistering {
          CommandSucceeded();
        }
      case Unregistered => CommandSucceeded();
      case Written(ok) => FailsUnless(ok, remoteBda);
      }
    }

    static lemma CommandCases(w: World, ev: Event)
      ensures match ev
              case SearchDone(ok, count) =>
                OnGatt(w, ev) ==
                  if ok && w.hub.action.getServer && count > 0 then w
                  else Eq3Machine.GattcCommandError(w, w.hub.remoteBda)
              case Notified(unregistering) =>
                OnGatt(w, ev) == if unregistering then w else Eq3Machine.CommandSucceeded(w)
              case Unregistered => OnGatt(w, ev) == Eq3Machine.CommandSucceeded(w)
              case Written(ok) => OnGatt(w, ev) == if ok then w else Eq3Machine.GattcCommandError(w, w.hub.remoteBda)
              case _ => true
    {
    }

    /** gattc_profile_event_handler */
    method GattEvent(ev: Event)
      requires Valid()
      modifies this, queue, queue.nodes
      ensures Valid() && Abs() == OnGatt(old(Abs()), ev)
      ensures forall n :: n in queue.nodes ==> n in old(queue.nodes)
    {
      hide OnGatt, OnDisconnected;
      match ev {
      case Connected(bda) => PeerEvent(bda);
      case Opened(ok) => OpenEvent(ok);
      case Closed(ok) => CloseEvent(ok);
      case MtuSet(ok) => MtuEvent(ok);
      case SearchResult(isEq3) => SearchResultEvent(isEq3);
      case SearchDone(_, _) => CommandEvent(ev);
      case NotifyReady(ok) => NotifyReadyEvent(ok);
      case Notified(_) => CommandEvent(ev);
      case Unregistered => CommandEvent(ev);
      case Written(_) => CommandEvent(ev);
      case Disconnected(byLocalHost) =>
        DisconnectIs(Abs(), byLocalHost);
        DisconnectEvent(byLocalHost);
      case _ => NothingToDo(Abs(), ev);
      }
    }

    static lemma DisconnectIs(w: World, byLocalHost: bool)
      ensures OnGatt(w, Disconnected(byLocalHost)) == OnDisconnected(w, byLocalHost)
    {
    }

    static lemma NothingToDo(w: World, ev: Event)
      requires ev.HandleRequest? || ev.ScheduleReboot? || ev.WifiDone? || ev.Tick?
      ensures OnGatt(w, ev) == w
    {
    }

    /** Whatever arrives: the event's handler. */
    method Handle(ev: Event)
      requires Valid()
      modifies this, queue, queue.nodes, cmdVal
      ensures Valid() && Abs() == Step(old(Abs()), ev)
      ensures forall n :: n in queue.nodes ==> n in old(queue.nodes) || fresh(n)
    {
      hide OnRequest, OnScheduleReboot, OnWifiDone, OnTick, OnGatt;
      match ev {
      case HandleRequest(r) => HandleRequest(r);
      case ScheduleReboot => ScheduleReboot();
      case WifiDone(connected) => WifiDone(connected);
      case Tick => TimerEvent();
      case _ => GattEvent(ev);
      }
    }

    /**
     * Any run of events from a state that satisfies the invariant: the object makes the machine's run,
     * and satisfies it again.
     */
    method Drive(evs: seq<Event>)
      requires Valid() && Inv(Abs()) && Possible(Abs(), evs)
      modifies this, queue, queue.nodes, cmdVal
      ensures Valid() && Abs() == Run(old(Abs()), evs) && Inv(Abs())
    {
      hide Step, Inv, CanHappen, Valid;
      ghost var w := Abs();
      var i := 0;
      assert evs[0..] == evs;
      while i < |evs|
        invariant 0 <= i <= |evs| && Valid() && Inv(Abs())
        invariant Possible(Abs(), evs[i..]) && Run(Abs(), evs[i..]) == Run(w, evs)
        invariant forall k :: 0 <= k < |queue.nodes| ==> queue.nodes[k] in old(queue.nodes) || fresh(queue.nodes[k])
      {
        assert evs[i..][1..] == evs[i + 1..];
        StepKeeps(Abs(), evs[i]);
        ghost var before := queue.nodes;
        Handle(evs[i]);
        forall k | 0 <= k < |queue.nodes| ensures queue.nodes[k] in old(queue.nodes) || fresh(queue.nodes[k]) {
          ghost var n := queue.nodes[k];
          assert n in queue.nodes;
          if n in before {
            ghost var j :| 0 <= j < |before| && before[j] == n;
          }
        }
        i := i + 1;
      }
    }
  }
}
