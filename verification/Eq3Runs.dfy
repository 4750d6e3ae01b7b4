// What every run of the scheduler keeps: the invariant, and the safety
// properties that follow from it.
module Eq3Runs {
  import opened Bytes
  import opened Eq3Commands
  import opened Eq3Machine

  function Run(w: World, evs: seq<Event>): (w': World)
    decreases |evs|
  {
    if evs == [] then w else Run(Step(w, evs[0]), evs[1..])
  }

  /**
   * An event can happen now: ticks come from started timers, nothing follows a reboot, and no client
   * asks for EQ3_ECO.
   */
  ghost predicate CanHappen(w: World, ev: Event) {
    && !w.hist.rebooted
    && (ev == Tick ==> w.hist.pendingTicks > 0)
    && (ev.HandleRequest? ==> ev.req.kind != Eco)
  }

  ghost predicate Possible(w: World, evs: seq<Event>)
    decreases |evs|
  {
    evs == [] || (CanHappen(w, evs[0]) && Possible(Step(w, evs[0]), evs[1..]))
  }

  // ------------------------------------------------------------ the invariant

  /** The queued requests, as a bag. */
  function Bag(q: seq<Command>): (b: multiset<Request>) {
    if q == [] then multiset{} else multiset{q[0].req} + Bag(q[1..])
  }

  ghost predicate Conserved(q: seq<Command>, h: History) {
    h.accepted == Bag(q) + h.completed + h.exhausted
  }

  ghost predicate QueueOk(q: seq<Command>) {
    Live(q) && forall i :: 0 <= i < |q| ==> q[i].req.kind != Eco
  }

  /** The queue head is the command that was started, and the action buffer holds its address and encoding. */
  ghost predicate InFlightAgrees(q: seq<Command>, a: Action, inFlight: seq<Command>) {
    inFlight != [] ==>
      && q != []
      && inFlight == [q[0]]
      && a.cmdBleda == q[0].req.bleda
      && q[0].req.kind != Eco
      && a.cmdVal[..a.cmdLen] == Encode(q[0].req)
  }

  ghost predicate TimersAgree(a: Action, d: NextCmd, pendingTicks: int) {
    && pendingTicks == (if a.outstanding then 1 else 0)
    && (d.running ==> a.outstanding && d.countdown >= 1)
    && 0 <= a.opTime < BLE_OPERATION_TIMEOUT
  }

  ghost predicate Inv(w: World) {
    && Conserved(w.hub.queue, w.hist)
    && QueueOk(w.hub.queue)
    && InFlightAgrees(w.hub.queue, w.hub.action, w.hist.inFlight)
    && TimersAgree(w.hub.action, w.hub.delay, w.hist.pendingTicks)
  }

  // ------------------------------------------------- one event keeps it

  lemma {:induction false} BagOfSnoc(q: seq<Command>, c: Command)
    ensures Bag(q + [c]) == Bag(q) + multiset{c.req}
  {
    if q == [] {
      assert Bag([c]) == multiset{c.req} + Bag([c][1..]);
    } else {
      assert (q + [c])[1..] == q[1..] + [c];
      BagOfSnoc(q[1..], c);
    }
  }

  lemma LeavingConserves(q: seq<Command>, h: History)
    requires q != [] && Conserved(q, h)
    ensures Conserved(q[1..], Observe(h, Completed(q[0].req)))
    ensures Conserved(q[1..], Observe(h, Exhausted(q[0].req)))
  {
    var r, b := multiset{q[0].req}, Bag(q[1..]);
    assert r + b + h.completed + h.exhausted == b + (h.completed + r) + h.exhausted;
    assert r + b + h.completed + h.exhausted == b + h.completed + (h.exhausted + r);
  }

  lemma RotationConserves(q: seq<Command>, h: History)
    requires q != [] && Conserved(q, h)
    ensures Conserved(q[1..] + [Charged(q[0])], Observe(h, Retried(q[0].req)))
  {
    BagOfSnoc(q[1..], Charged(q[0]));
  }

  lemma JoiningConserves(q: seq<Command>, h: History, c: Command)
    requires Conserved(q, h)
    ensures Conserved(q + [c], Observe(h, Accepted(c.req)))
  {
    BagOfSnoc(q, c);
    var r, b := multiset{c.req}, Bag(q);
    assert (b + h.completed + h.exhausted) + r == (b + r) + h.completed + h.exhausted;
  }

  lemma CompletionConserves(w: World, success: bool)
    requires Conserved(w.hub.queue, w.hist)
    ensures Conserved(CommandComplete(w, success).hub.queue, CommandComplete(w, success).hist)
  {
    var q := w.hub.queue;
    if q == [] {
    } else if success || FailureOutcome(q) == Failed {
      LeavingConserves(q, w.hist);
    } else {
      RotationConserves(q, w.hist);
    }
  }

  lemma CompletionKeepsQueueOk(w: World, success: bool)
    requires QueueOk(w.hub.queue)
    ensures QueueOk(CommandComplete(w, success).hub.queue)
  {
    var q := w.hub.queue;
    if q != [] && !success {
      FailureCostsOneAttempt(q);
    }
  }

  lemma CompletionKeeps(w: World, success: bool)
    requires Inv(w)
    ensures Inv(CommandComplete(w, success))
  {
    CompletionConserves(w, success);
    CompletionKeepsQueueOk(w, success);
    if w.hub.queue != [] {
      assert CommandComplete(w, success).hist.inFlight == [];
    }
  }

  lemma RunTimerKeeps(w: World)
    requires Inv(w)
    ensures Inv(RunTimer(w))
  {
  }

  lemma DisconnectLaterKeeps(w: World)
    requires Inv(w)
    ensures Inv(DisconnectLater(w))
  {
  }

  lemma ReportKeeps(w: World, bleda: Address)
    requires Inv(w)
    ensures Inv(Emit(w, Report(bleda)))
  {
  }

  lemma ErrorKeeps(w: World, bleda: Address)
    requires Inv(w)
    ensures Inv(GattcCommandError(w, bleda))
  {
    var w1 := CommandComplete(w, false);
    CompletionKeeps(w, false);
    ReportKeeps(w1, bleda);
    DisconnectLaterKeeps(w1);
    DisconnectLaterKeeps(Emit(w1, Report(bleda)));
  }

  lemma SuccessKeeps(w: World)
    requires Inv(w)
    ensures Inv(CommandSucceeded(w))
  {
    CompletionKeeps(w, true);
    DisconnectLaterKeeps(CommandComplete(w, true));
  }

  lemma EnqueueKeeps(w: World, r: Request, e: Effect)
    requires Inv(w) && r.kind != Eco
    requires e == if IsStillPending(w.hub.queue, r) then Dropped(r) else Accepted(r)
    ensures Inv(Emit(w.(hub := w.hub.(queue := Enqueued(w.hub.queue, Command(r, MAX_CMD_RETRIES)))), e))
  {
    if e == Accepted(r) {
      JoiningConserves(w.hub.queue, w.hist, Command(r, MAX_CMD_RETRIES));
    }
  }

  lemma RequestKeeps(w: World, r: Request)
    requires Inv(w) && r.kind != Eco
    ensures Inv(OnRequest(w, r))
  {
    var e := if IsStillPending(w.hub.queue, r) then Dropped(r) else Accepted(r);
    EnqueueKeeps(w, r, e);
    RunTimerKeeps(Emit(w.(hub := w.hub.(queue := Enqueued(w.hub.queue, Command(r, MAX_CMD_RETRIES)))), e));
  }

  /** The events that only touch the connection's own flags. */
  lemma LinkEventKeeps(w: World, a: Action)
    requires Inv(w)
    requires a == w.hub.action.(getServer := a.getServer, connectionOpen := a.connectionOpen,
             inProgress := a.inProgress)
    ensures Inv(w.(hub := w.hub.(action := a)))
  {
  }

  /** Effects and fields the invariant does not speak of. */
  lemma QuietKeeps(w: World, e: Effect, bda: Address)
    requires Inv(w) && (e == GattSearch || e.GattWrite?)
    ensures Inv(Emit(w, e)) && Inv(w.(hub := w.hub.(remoteBda := bda)))
  {
  }

  lemma GattKeeps(w: World, ev: Event)
    requires Inv(w)
    ensures Inv(OnGatt(w, ev))
  {
    hide Inv, GattcCommandError, CommandSucceeded, RunTimer;
    var a := w.hub.action;
    match ev
    case Connected(bda) => QuietKeeps(w, GattSearch, bda);
    case Opened(ok) =>
      if ok { LinkEventKeeps(w, a.(connectionOpen := true)); } else { ErrorKeeps(w, a.cmdBleda); }
    case Closed(ok) =>
      LinkEventKeeps(w, a.(connectionOpen := !ok && a.connectionOpen));
      RunTimerKeeps(w.(hub := w.hub.(action := a.(connectionOpen := !ok && a.connectionOpen))));
    case MtuSet(ok) => if ok { QuietKeeps(w, GattSearch, w.hub.remoteBda); } else { ErrorKeeps(w, w.hub.remoteBda); }
    case SearchResult(isEq3) => LinkEventKeeps(w, a.(getServer := isEq3 || a.getServer));
    case SearchDone(_, _) => ErrorKeeps(w, w.hub.remoteBda);
    case NotifyReady(ok) =>
      if ok {
        QuietKeeps(w, GattWrite(a.cmdVal[..a.cmdLen]), w.hub.remoteBda);
      } else {
        ErrorKeeps(w, w.hub.remoteBda);
      }
    case Notified(_) => SuccessKeeps(w);
    case Unregistered => SuccessKeeps(w);
    case Written(_) => ErrorKeeps(w, w.hub.remoteBda);
    case Disconnected(_) =>
      var a1 := a.(getServer := false, inProgress := false);
      LinkEventKeeps(w, a1);
      ErrorKeeps(w.(hub := w.hub.(action := a1)), a.cmdBleda);
    case _ =>
  }

  /** What taking the head off, or moving it to the back, leaves alone. */
  lemma CommandCompleteFrame(w: World, success: bool)
    ensures var w' := CommandComplete(w, success);
            && w'.hub == w.hub.(queue := if success then Succeeded(w.hub.queue) else AfterFailure(w.hub.queue))
            && w'.hist.inFlight == (if w.hub.queue == [] then w.hist.inFlight else [])
            && w'.hist.fired == w.hist.fired && w'.hist.rebooted == w.hist.rebooted && w'.hist.written == w.hist.written
  {
    if w.hub.queue != [] {
      hide Succeeded, AfterFailure;
    }
  }

  lemma DisconnectLaterFrame(w: World)
    ensures var w' := DisconnectLater(w);
            && w'.hub == w.hub.(action := w.hub.action.(outstanding := true),
                                delay := SetNextCmd(w.hub.delay, Disconnect, 2))
            && w'.hist == w.hist.(pendingTicks := w'.hist.pendingTicks)
  {
  }

  /** What completing a command leaves alone, and the timer it leaves running. */
  lemma CompletionFrame(w: World, success: bool, bleda: Address)
    ensures var w' := if success then CommandSucceeded(w) else GattcCommandError(w, bleda);
            && w'.hub.action == w.hub.action.(outstanding := true)
            && w'.hub.delay == SetNextCmd(w.hub.delay, Disconnect, 2)
            && w'.hub.queue == (if success then Succeeded(w.hub.queue) else AfterFailure(w.hub.queue))
            && w'.hist.inFlight == (if w.hub.queue == [] then w.hist.inFlight else [])
            && w'.hist.fired == w.hist.fired && w'.hist.rebooted == w.hist.rebooted && w'.hist.written == w.hist.written
  {
    hide CommandComplete, DisconnectLater, Succeeded, AfterFailure, SetNextCmd;
    var w1 := CommandComplete(w, success);
    CommandCompleteFrame(w, success);
    DisconnectLaterFrame(w1);
    DisconnectLaterFrame(Emit(w1, Report(bleda)));
  }

  /** The head of the queue and the command in flight are untouched, or one completion has happened. */
  ghost predicate SameOrCompleted(w: World, w': World) {
    || (w'.hub.queue == w.hub.queue && w'.hist.inFlight == w.hist.inFlight)
    || (w'.hist.inFlight == (if w.hub.queue == [] then w.hist.inFlight else [])
        && (w'.hub.queue == Succeeded(w.hub.queue) || w'.hub.queue == AfterFailure(w.hub.queue)))
  }

  /** No delayed command has fired, a running delay is unchanged, there was no reboot, and `sent` was written. */
  ghost predicate GattLeaves(w: World, w': World, sent: seq<seq<byte>>) {
    && SameOrCompleted(w, w')
    && w'.hist.fired == w.hist.fired && w'.hist.rebooted == w.hist.rebooted
    && (w'.hub.delay == w.hub.delay || w'.hub.delay == SetNextCmd(w.hub.delay, Disconnect, 2))
    && w'.hist.written == w.hist.written + sent
  }

  lemma CompletionLeaves(w: World, success: bool, bleda: Address)
    ensures GattLeaves(w, if success then CommandSucceeded(w) else GattcCommandError(w, bleda), [])
  {
    hide CommandSucceeded, GattcCommandError, Succeeded, AfterFailure, SetNextCmd;
    CompletionFrame(w, success, bleda);
  }

  lemma RunTimerLeaves(w: World, a: Action)
    ensures GattLeaves(w, w.(hub := w.hub.(action := a)), []) &&
            GattLeaves(w, RunTimer(w.(hub := w.hub.(action := a))), [])
  {
    hide Succeeded, AfterFailure, SetNextCmd;
  }

  lemma QuietLeaves(w: World, e: Effect, bda: Address)
    requires e == GattSearch || e.GattWrite?
    ensures GattLeaves(w, Emit(w, e), if e.GattWrite? then [e.value] else []) &&
            GattLeaves(w, w.(hub := w.hub.(remoteBda := bda)), [])
    ensures GattLeaves(w, w, [])
  {
    hide Succeeded, AfterFailure, SetNextCmd;
  }

  /** What a GATT event leaves alone: it never fires a delayed command, changes a running delay or reboots. */
  lemma GattFrame(w: World, ev: Event)
    ensures var a := w.hub.action;
            GattLeaves(w, OnGatt(w, ev), if ev == NotifyReady(true) then [a.cmdVal[..a.cmdLen]] else [])
  {
    hide GattLeaves, GattcCommandError, CommandSucceeded, RunTimer, Emit;
    var a := w.hub.action;
    QuietLeaves(w, GattSearch, w.hub.remoteBda);
    match ev
    case Connected(bda) => QuietLeaves(w, GattSearch, bda);
    case Opened(ok) =>
      CompletionLeaves(w, false, a.cmdBleda);
      RunTimerLeaves(w, a.(connectionOpen := true));
    case Closed(ok) => RunTimerLeaves(w, a.(connectionOpen := !ok && a.connectionOpen));
    case MtuSet(_) => CompletionLeaves(w, false, w.hub.remoteBda);
    case SearchResult(isEq3) => RunTimerLeaves(w, a.(getServer := isEq3 || a.getServer));
    case SearchDone(_, _) => CompletionLeaves(w, false, w.hub.remoteBda);
    case NotifyReady(_) =>
      CompletionLeaves(w, false, w.hub.remoteBda);
      QuietLeaves(w, GattWrite(a.cmdVal[..a.cmdLen]), w.hub.remoteBda);
    case Notified(_) => CompletionLeaves(w, true, w.hub.remoteBda);
    case Unregistered => CompletionLeaves(w, true, w.hub.remoteBda);
    case Written(_) => CompletionLeaves(w, false, w.hub.remoteBda);
    case Disconnected(byLocalHost) =>
      var w1 := w.(hub := w.hub.(action := a.(getServer := false, inProgress := false)));
      RunTimerLeaves(w, w1.hub.action);
      CompletionLeaves(w1, false, a.cmdBleda);
      LeavesFromHere(w, w1, GattcCommandError(w1, a.cmdBleda));
    case _ =>
  }

  lemma LeavesFromHere(w: World, w1: World, w': World)
    requires w1 == w.(hub := w.hub.(action := w1.hub.action)) && GattLeaves(w1, w', [])
    ensures GattLeaves(w, w', [])
  {
    hide Succeeded, AfterFailure, SetNextCmd;
  }

  lemma FireFrame(w: World)
    ensures var w' := Fire(w);
            && w'.hub.queue == w.hub.queue && w'.hub.delay == w.hub.delay
            && w'.hub.action == w.hub.action.(outstanding := w.hub.action.outstanding || w.hub.delay.cmd == Disconnect)
            && w'.hist.fired == w.hist.fired + [w.hub.delay.cmd]
            && w'.hist == w.hist.(fired := w'.hist.fired, closes := w'.hist.closes,
                                  pendingTicks := w.hist.pendingTicks +
                                    if !w.hub.action.outstanding && w.hub.delay.cmd == Disconnect then 1 else 0)
  {
  }

  /** A tick while a delay is running: it counts down, or the delayed command fires and the delay ends. */
  lemma DelayTickKeeps(w: World)
    requires Inv(w) && w.hub.delay.running
    ensures Inv(Step(w, Tick))
    ensures Step(w, Tick).hist.rebooted == w.hist.rebooted && Step(w, Tick).hist.written == w.hist.written
    ensures var d, d' := w.hub.delay, Step(w, Tick).hub.delay;
            if d.countdown > 1
            then d' == d.(countdown := d.countdown - 1) && Step(w, Tick).hist.fired == w.hist.fired
            else !d'.running && Step(w, Tick).hist.fired == w.hist.fired + [d.cmd]
  {
    var w0 := TickDelivered(w);
    var w1 := w0.(hub := w0.hub.(delay := w.hub.delay.(countdown := w.hub.delay.countdown - 1)));
    assert Step(w, Tick) == DelayTick(w0);
    if w.hub.delay.countdown <= 1 {
      FireFrame(w1);
    }
  }

  lemma RunCommandKeeps(w: World)
    requires Inv(w)
    ensures Inv(RunCommand(w))
    ensures w.hub.queue != [] ==> RunCommand(w).hist.inFlight == [w.hub.queue[0]]
    ensures w.hub.queue != [] ==> RunCommand(w).hist.dialled == w.hist.dialled + [w.hub.queue[0].req.bleda]
  {
    if w.hub.queue != [] {
      var r := w.hub.queue[0].req;
      var a := SetupCommand(w.hub.action, r);
      assert a.cmdVal[..a.cmdLen] == Encode(r);
    }
  }

  /** A tick with nothing delayed and no operation in progress: the head is started, or the hub may reboot. */
  lemma IdleTickKeeps(w: World)
    requires Inv(w) && !w.hub.delay.running && !w.hub.action.inProgress && w.hub.action.outstanding
    ensures Inv(Step(w, Tick))
    ensures Step(w, Tick).hub.queue == w.hub.queue && Step(w, Tick).hist.written == w.hist.written
    ensures w.hub.queue != [] ==> Step(w, Tick).hist.inFlight == [w.hub.queue[0]]
    ensures Step(w, Tick).hist.rebooted == (w.hist.rebooted || (w.hub.queue == [] && w.hub.rebootRequested))
  {
    var w0 := TickDelivered(w);
    assert Step(w, Tick) == IdleTick(w0);
    assert Inv(w0);
    RunCommandKeeps(w0);
  }

  /** A tick while an operation is in progress: the watchdog counts, and gives up at the limit. */
  lemma WatchdogTickKeeps(w: World)
    requires Inv(w) && !w.hub.delay.running && w.hub.action.inProgress && w.hub.action.outstanding
    ensures Inv(Step(w, Tick))
    ensures Step(w, Tick).hist.rebooted == w.hist.rebooted && Step(w, Tick).hist.written == w.hist.written
    ensures Step(w, Tick).hub.action.inProgress == (w.hub.action.opTime + 1 < BLE_OPERATION_TIMEOUT)
    ensures SameOrCompleted(w, Step(w, Tick))
  {
    var w0, a := TickDelivered(w), TickDelivered(w).hub.action;
    var a1 := if a.opTime + 1 >= BLE_OPERATION_TIMEOUT then a.(inProgress := false, opTime := 0)
        else a.(opTime := a.opTime + 1);
    var w1 := w0.(hub := w0.hub.(action := a1));
    assert Step(w, Tick) == WatchdogTick(w0);
    assert Inv(w1);
    if a.opTime + 1 >= BLE_OPERATION_TIMEOUT {
      ErrorKeeps(w1, a.cmdBleda);
      CompletionFrame(w1, false, a.cmdBleda);
    } else {
      RunTimerKeeps(w1);
    }
  }

  lemma StepKeeps(w: World, ev: Event)
    requires Inv(w) && CanHappen(w, ev)
    ensures Inv(Step(w, ev))
  {
    match ev
    case HandleRequest(r) => RequestKeeps(w, r);
    case ScheduleReboot => RunTimerKeeps(w.(hub := w.hub.(rebootRequested := true)));
    case WifiDone(connected) =>
    case Tick =>
      if w.hub.delay.running {
        DelayTickKeeps(w);
      } else if w.hub.action.inProgress {
        WatchdogTickKeeps(w);
      } else {
        IdleTickKeeps(w);
      }
    case _ => GattKeeps(w, ev);
  }

  lemma {:induction false} RunKeeps(w: World, evs: seq<Event>)
    requires Inv(w) && Possible(w, evs)
    ensures Inv(Run(w, evs))
    decreases |evs|
  {
    if evs == [] {
    } else {
      StepKeeps(w, evs[0]);
      RunKeeps(Step(w, evs[0]), evs[1..]);
    }
  }
}
