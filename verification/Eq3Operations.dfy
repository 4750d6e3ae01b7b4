// How long an operation lasts, what delays and the link do on every event, and what
// is asked of the BLE stack.
module Eq3Operations {
  import opened Bytes
  import opened Eq3Commands
  import opened Eq3Machine
  import opened Eq3Runs
  import opened Eq3Safety
  import opened Eq3Completions

  // ------------------------------------------------------- the time of an operation

  /** The ticks that an operation counts: those that come while nothing is delayed. */
  predicate Counts(h: Hub, ev: Event) {
    ev == Tick && h.action.outstanding && !h.delay.running && h.action.inProgress
  }

  /** An operation starts at 0, its ticks count one each, and the fortieth ends it. */
  lemma OperationTimeExactly(w: World, ev: Event)
    requires Inv(w) && CanHappen(w, ev)
    ensures var t, t' := w.hub.action.opTime, Step(w, ev).hub.action.opTime;
            t' == if Starts(w.hub, ev) then 0 else if Counts(w.hub, ev) then (if t == 39 then 0 else t + 1) else t
    ensures Step(w, ev).hub.action.inProgress <==>
              Starts(w.hub, ev) ||
              (w.hub.action.inProgress && !ev.Disconnected? && !(Counts(w.hub, ev) && w.hub.action.opTime == 39))
  {
    hide GattcCommandError, CommandSucceeded, IsStillPending, StillPending;
    TicksComeFromTimers(w);
    match ev
    case Tick => TickTime(w);
    case HandleRequest(_) =>
    case ScheduleReboot =>
    case WifiDone(_) =>
    case _ => GattTime(w, ev);
  }

  lemma TickTime(w: World)
    requires Inv(w) && w.hub.action.outstanding
    ensures var a, a' := w.hub.action, Step(w, Tick).hub.action;
            && a'.opTime == (if Starts(w.hub, Tick) then 0
                             else if !Counts(w.hub, Tick) then a.opTime
                             else if a.opTime == 39 then 0 else a.opTime + 1)
            && (a'.inProgress <==>
                  Starts(w.hub, Tick) || (a.inProgress && !(Counts(w.hub, Tick) && a.opTime == 39)))
  {
    hide GattcCommandError, Conserved, QueueOk, InFlightAgrees;
    var w0 := TickDelivered(w);
    if w.hub.delay.running {
      var w1 := w0.(hub := w0.hub.(delay := w.hub.delay.(countdown := w.hub.delay.countdown - 1)));
      assert Step(w, Tick) == DelayTick(w0);
      FireFrame(w1);
    } else if w.hub.action.inProgress {
      var a := w0.hub.action;
      assert Step(w, Tick) == WatchdogTick(w0);
      CompletionFrame(w0.(hub := w0.hub.(action := a.(inProgress := false, opTime := 0))), false, a.cmdBleda);
    } else {
      assert Step(w, Tick) == IdleTick(w0);
    }
  }

  lemma GattTime(w: World, ev: Event)
    requires !ev.HandleRequest? && !ev.ScheduleReboot? && !ev.WifiDone? && !ev.Tick?
    ensures var a, a' := w.hub.action, OnGatt(w, ev).hub.action;
            a'.opTime == a.opTime && (a'.inProgress <==> a.inProgress && !ev.Disconnected?)
  {
    hide GattcCommandError, CommandSucceeded;
    var a := w.hub.action;
    if ev.Disconnected? {
      var w1 := w.(hub := w.hub.(action := a.(getServer := false, inProgress := false)));
      CompletionFrame(w1, false, a.cmdBleda);
    } else {
      GattCompletions(w, ev);
      CompletionFrame(w, Succeeds(ev), Reporter(w.hub, ev));
    }
  }

  /** Every operation has its 40 ticks before it when it starts. */
  lemma StartsWithFortyTicks(w: World)
    requires Inv(w) && CanHappen(w, Tick) && Starts(w.hub, Tick)
    ensures TicksToTimeout(Step(w, Tick).hub) == 40
  {
    OperationTimeExactly(w, Tick);
    DelayExactly(w, Tick);
  }

  /** The ticks along a run that an operation counts. */
  function Counted(w: World, evs: seq<Event>): (n: nat)
    decreases |evs|
  {
    if evs == [] then 0 else (if Counts(w.hub, evs[0]) then 1 else 0) + Counted(Step(w, evs[0]), evs[1..])
  }

  /** Whatever else happens, short of a disconnection an operation goes on until it has counted 40 ticks. */
  lemma {:induction false} OperationLasts(w: World, evs: seq<Event>)
    requires Inv(w) && Possible(w, evs) && w.hub.action.inProgress
    requires forall i :: 0 <= i < |evs| ==> !evs[i].Disconnected?
    requires w.hub.action.opTime + Counted(w, evs) < 40
    ensures var w' := Run(w, evs);
            Inv(w') && w'.hub.action.inProgress && w'.hub.action.opTime == w.hub.action.opTime + Counted(w, evs)
    decreases |evs|
  {
    hide Inv, Step, CanHappen, Counts, Starts;
    if evs != [] {
      StepKeeps(w, evs[0]);
      OperationTimeExactly(w, evs[0]);
      StartsFromIdle(w.hub, evs[0]);
      assert forall i :: 0 <= i < |evs[1..]| ==> evs[1..][i] == evs[i + 1];
      OperationLasts(Step(w, evs[0]), evs[1..]);
    }
  }

  lemma StartsFromIdle(h: Hub, ev: Event)
    ensures Starts(h, ev) ==> !h.action.inProgress
  {
  }

  /**
   * From its start, whatever else happens short of a disconnection: an operation is given up, and its
   * command charged, on the fortieth tick that it counts, and on no tick before.
   */
  lemma GivenUpOnTheFortiethTick(w: World, evs: seq<Event>)
    requires Inv(w) && CanHappen(w, Tick) && Starts(w.hub, Tick)
    requires Possible(Step(w, Tick), evs) && forall i :: 0 <= i < |evs| ==> !evs[i].Disconnected?
    requires Counted(Step(w, Tick), evs) < 40 && CanHappen(Run(Step(w, Tick), evs), Tick)
    ensures var n, w1 := Counted(Step(w, Tick), evs), Run(Step(w, Tick), evs);
            var w2 := Step(w1, Tick);
            && w1.hub.action.inProgress
            && (Counts(w1.hub, Tick) && n == 39 ==>
                  !w2.hub.action.inProgress && w2.hub.queue == AfterFailure(w1.hub.queue))
            && (!(Counts(w1.hub, Tick) && n == 39) ==> w2.hub.action.inProgress && w2.hub.queue == w1.hub.queue)
  {
    hide Inv, Possible, Counted, Run, AfterFailure;
    StepKeeps(w, Tick);
    OperationTimeExactly(w, Tick);
    OperationLasts(Step(w, Tick), evs);
    var w1 := Run(Step(w, Tick), evs);
    hide Step, CanHappen;
    OperationTimeExactly(w1, Tick);
    QueueMoves(w1, Tick);
  }

  /** Once a timer is running and nothing is delayed, 39 ticks alone leave a started operation as it is; 40 end it. */
  lemma FortyTicksFromTheStart(w: World, evs: seq<Event>)
    requires Inv(w) && CanHappen(w, Tick) && Starts(w.hub, Tick) && Possible(Step(w, Tick), evs)
    requires forall i :: 0 <= i < |evs| ==> !evs[i].Disconnected? && evs[i] != Tick
    requires var w1 := Run(Step(w, Tick), evs);
             w1.hub.action.outstanding && !w1.hub.delay.running && !w1.hist.rebooted
    ensures var w1 := Run(Step(w, Tick), evs);
            var w2, w3 := Run(w1, TickRun(39)), Run(w1, TickRun(40));
            && Possible(w1, TickRun(40))
            && w2.hub.action.inProgress && w2.hub.queue == w1.hub.queue
            && !w3.hub.action.inProgress && w3.hub.queue == AfterFailure(w1.hub.queue)
  {
    hide Inv, AfterFailure, Step, CanHappen;
    StepKeeps(w, Tick);
    OperationTimeExactly(w, Tick);
    NothingCounted(Step(w, Tick), evs);
    OperationLasts(Step(w, Tick), evs);
    var w1 := Run(Step(w, Tick), evs);
    WatchdogGivesUp(w1, 39);
    WatchdogGivesUp(w1, 40);
  }

  lemma {:induction false} NothingCounted(w: World, evs: seq<Event>)
    requires forall i :: 0 <= i < |evs| ==> evs[i] != Tick
    ensures Counted(w, evs) == 0
    decreases |evs|
  {
    hide Step;
    if evs != [] {
      assert forall i :: 0 <= i < |evs[1..]| ==> evs[1..][i] == evs[i + 1];
      NothingCounted(Step(w, evs[0]), evs[1..]);
    }
  }

  // ------------------------------------------------------------- the delayed command

  /** The tick on which the delayed command is due. */
  predicate Fires(h: Hub, ev: Event) {
    ev == Tick && h.delay.running && h.delay.countdown <= 1
  }

  /** What is delayed after an event. */
  lemma DelayExactly(w: World, ev: Event)
    requires Inv(w) && CanHappen(w, ev)
    ensures var d, d' := w.hub.delay, Step(w, ev).hub.delay;
            && (ev == WifiDone(true) ==> (d'.running <==> d.running && d.cmd != RestartWifi))
            && (ev == Tick && d.running ==> (d'.running <==> d.countdown > 1) && d'.countdown == d.countdown - 1)
            && (d.running && d'.running ==> d'.cmd == d.cmd && (ev != Tick ==> d' == d))
            && (!d.running && d'.running ==>
                  d' == if ev == WifiDone(false) then NextCmd(true, RestartWifi, 300) else NextCmd(true, Disconnect, 2))
            && (!d.running ==> (d'.running <==> ev == WifiDone(false) || Succeeds(ev) || Fails(w.hub, ev)))
            && Step(w, ev).hist.fired == w.hist.fired + if Fires(w.hub, ev) then [d.cmd] else []
  {
    hide GattcCommandError, CommandSucceeded, IsStillPending, StillPending;
    TicksComeFromTimers(w);
    match ev
    case Tick => TickDelay(w);
    case HandleRequest(_) =>
    case ScheduleReboot =>
    case WifiDone(_) =>
    case _ => GattDelay(w, ev);
  }

  lemma TickDelay(w: World)
    requires Inv(w) && w.hub.action.outstanding
    ensures var d, d' := w.hub.delay, Step(w, Tick).hub.delay;
            && (d.running ==> d'.cmd == d.cmd && d'.countdown == d.countdown - 1 && (d'.running <==> d.countdown > 1))
            && (!d.running ==> d' == if Fails(w.hub, Tick) then NextCmd(true, Disconnect, 2) else d)
            && Step(w, Tick).hist.fired == w.hist.fired + if Fires(w.hub, Tick) then [d.cmd] else []
  {
    hide GattcCommandError, Conserved, QueueOk, InFlightAgrees;
    var w0 := TickDelivered(w);
    if w.hub.delay.running {
      var w1 := w0.(hub := w0.hub.(delay := w.hub.delay.(countdown := w.hub.delay.countdown - 1)));
      assert Step(w, Tick) == DelayTick(w0);
      FireFrame(w1);
    } else if w.hub.action.inProgress {
      var a := w0.hub.action;
      assert Step(w, Tick) == WatchdogTick(w0);
      CompletionFrame(w0.(hub := w0.hub.(action := a.(inProgress := false, opTime := 0))), false, a.cmdBleda);
    } else {
      assert Step(w, Tick) == IdleTick(w0);
    }
  }

  lemma GattDelay(w: World, ev: Event)
    requires !ev.HandleRequest? && !ev.ScheduleReboot? && !ev.WifiDone? && !ev.Tick?
    ensures var d, d' := w.hub.delay, OnGatt(w, ev).hub.delay;
            d' == if d.running || !(Succeeds(ev) || Fails(w.hub, ev)) then d else NextCmd(true, Disconnect, 2)
    ensures OnGatt(w, ev).hist.fired == w.hist.fired
  {
    hide GattcCommandError, CommandSucceeded;
    var a := w.hub.action;
    if ev.Disconnected? {
      var w1 := w.(hub := w.hub.(action := a.(getServer := false, inProgress := false)));
      CompletionFrame(w1, false, a.cmdBleda);
    } else {
      GattCompletions(w, ev);
      CompletionFrame(w, Succeeds(ev), Reporter(w.hub, ev));
    }
  }

  /** Once WiFi has come up, station mode is not tried again before it is lost. */
  lemma NoRetryWhileConnected(w: World, evs: seq<Event>)
    requires Inv(w) && CanHappen(w, WifiDone(true)) && Possible(Step(w, WifiDone(true)), evs)
    requires WifiDone(false) !in evs
    ensures var w1 := Step(w, WifiDone(true));
            var fired := Run(w1, evs).hist.fired;
            w1.hist.fired <= fired && RestartWifi !in fired[|w1.hist.fired|..]
  {
    StepKeeps(w, WifiDone(true));
    DelayExactly(w, WifiDone(true));
    NoRetryPending(Step(w, WifiDone(true)), evs);
  }

  lemma {:induction false} NoRetryPending(w: World, evs: seq<Event>)
    requires Inv(w) && Possible(w, evs) && WifiDone(false) !in evs
    requires !(w.hub.delay.running && w.hub.delay.cmd == RestartWifi)
    ensures var fired := Run(w, evs).hist.fired;
            w.hist.fired <= fired && RestartWifi !in fired[|w.hist.fired|..]
    decreases |evs|
  {
    hide Inv, Step, CanHappen, Succeeds, Fails;
    if evs != [] {
      var w1 := Step(w, evs[0]);
      StepKeeps(w, evs[0]);
      DelayExactly(w, evs[0]);
      NoRetryPending(w1, evs[1..]);
      var n, all := |w.hist.fired|, Run(w, evs).hist.fired;
      assert all[n..] == w1.hist.fired[n..] + all[|w1.hist.fired|..];
    }
  }

  // -------------------------------------------------------------------- the link

  /** Whether a connection is open, told from the events. */
  function LinkOpen(open: bool, evs: seq<Event>): (b: bool)
    decreases |evs|
  {
    if evs == [] then open
    else LinkOpen(if evs[0] == Opened(true) then true else if evs[0] == Closed(true) then false else open, evs[1..])
  }

  /** Whether the valve's service has been found since the last disconnection. */
  function ServerFound(found: bool, evs: seq<Event>): (b: bool)
    decreases |evs|
  {
    if evs == [] then found
    else
      var now := if evs[0] == SearchResult(true) then true else if evs[0].Disconnected? then false else found;
      ServerFound(now, evs[1..])
  }

  /** What one event does to the link, and what it asks of the BLE stack. */
  lemma LinkExactly(w: World, ev: Event)
    requires Inv(w) && CanHappen(w, ev)
    ensures var w' := Step(w, ev);
            && w'.hub.action.connectionOpen == LinkOpen(w.hub.action.connectionOpen, [ev])
            && w'.hub.action.getServer == ServerFound(w.hub.action.getServer, [ev])
            && w'.hist.searches == w.hist.searches + (if ev == MtuSet(true) then 1 else 0)
            && w'.hist.closes == w.hist.closes +
                 if Fires(w.hub, ev) && w.hub.delay.cmd == Disconnect && w.hub.action.connectionOpen then 1 else 0
  {
    hide GattcCommandError, CommandSucceeded, IsStillPending, StillPending;
    assert [ev][1..] == [];
    TicksComeFromTimers(w);
    match ev
    case Tick => TickLink(w);
    case HandleRequest(_) =>
    case ScheduleReboot =>
    case WifiDone(_) =>
    case _ => GattLink(w, ev);
  }

  lemma CompletionLink(w: World, success: bool, bleda: Address)
    ensures var w' := if success then CommandSucceeded(w) else GattcCommandError(w, bleda);
            && w'.hub.action == w.hub.action.(outstanding := true)
            && w'.hist.searches == w.hist.searches && w'.hist.closes == w.hist.closes
  {
    hide CommandComplete, DisconnectLater, Succeeded, AfterFailure;
    var w1 := CommandComplete(w, success);
    CommandCompleteLink(w, success);
    DisconnectLaterFrame(w1);
    DisconnectLaterFrame(Emit(w1, Report(bleda)));
  }

  lemma CommandCompleteLink(w: World, success: bool)
    ensures var w' := CommandComplete(w, success);
            && w'.hub.action == w.hub.action
            && w'.hist.searches == w.hist.searches && w'.hist.closes == w.hist.closes
  {
    hide Succeeded, AfterFailure;
  }

  lemma TickLink(w: World)
    requires Inv(w) && w.hub.action.outstanding
    ensures var a, a', w' := w.hub.action, Step(w, Tick).hub.action, Step(w, Tick);
            && a'.connectionOpen == a.connectionOpen && a'.getServer == a.getServer
            && w'.hist.searches == w.hist.searches
            && w'.hist.closes == w.hist.closes +
                 if Fires(w.hub, Tick) && w.hub.delay.cmd == Disconnect && a.connectionOpen then 1 else 0
  {
    hide GattcCommandError, Conserved, QueueOk, InFlightAgrees;
    var w0 := TickDelivered(w);
    if w.hub.delay.running {
      DelayLink(w);
    } else if w.hub.action.inProgress {
      var a := w0.hub.action;
      assert Step(w, Tick) == WatchdogTick(w0);
      hide DelayTick, IdleTick;
      CompletionLink(w0.(hub := w0.hub.(action := a.(inProgress := false, opTime := 0))), false, a.cmdBleda);
    } else {
      assert Step(w, Tick) == IdleTick(w0);
    }
  }

  lemma DelayLink(w: World)
    requires w.hub.delay.running
    ensures var a, w' := w.hub.action, Step(w, Tick);
            && w'.hub.action.connectionOpen == a.connectionOpen && w'.hub.action.getServer == a.getServer
            && w'.hist.searches == w.hist.searches
            && w'.hist.closes == w.hist.closes +
                 if w.hub.delay.countdown <= 1 && w.hub.delay.cmd == Disconnect && a.connectionOpen then 1 else 0
  {
    hide WatchdogTick, IdleTick;
    assert Step(w, Tick) == DelayTick(TickDelivered(w));
  }

  lemma GattLink(w: World, ev: Event)
    requires !ev.HandleRequest? && !ev.ScheduleReboot? && !ev.WifiDone? && !ev.Tick?
    ensures var a, w' := w.hub.action, OnGatt(w, ev);
            && w'.hub.action.connectionOpen ==
                 (if ev == Opened(true) then true else if ev == Closed(true) then false else a.connectionOpen)
            && w'.hub.action.getServer ==
                 (if ev == SearchResult(true) then true else if ev.Disconnected? then false else a.getServer)
            && w'.hist.searches == w.hist.searches + (if ev == MtuSet(true) then 1 else 0)
            && w'.hist.closes == w.hist.closes
  {
    hide GattcCommandError, CommandSucceeded;
    var a := w.hub.action;
    if ev.Disconnected? {
      var w1 := w.(hub := w.hub.(action := a.(getServer := false, inProgress := false)));
      CompletionLink(w1, false, a.cmdBleda);
    } else {
      GattCompletions(w, ev);
      CompletionLink(w, Succeeds(ev), Reporter(w.hub, ev));
    }
  }

  /** Along every run the hub knows whether a connection is open, and whether the service has been found. */
  lemma {:induction false} LinkFollowsTheEvents(w: World, evs: seq<Event>)
    requires Inv(w) && Possible(w, evs)
    ensures Run(w, evs).hub.action.connectionOpen == LinkOpen(w.hub.action.connectionOpen, evs)
    ensures Run(w, evs).hub.action.getServer == ServerFound(w.hub.action.getServer, evs)
    decreases |evs|
  {
    hide Inv, Step, CanHappen;
    if evs != [] {
      StepKeeps(w, evs[0]);
      LinkExactly(w, evs[0]);
      assert [evs[0]][1..] == [];
      LinkFollowsTheEvents(Step(w, evs[0]), evs[1..]);
    }
  }
}
