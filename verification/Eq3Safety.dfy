// The promises of the scheduler, for every possible run from boot.
module Eq3Safety {
  import opened Bytes
  import opened Eq3Commands
  import opened Eq3Machine
  import opened Eq3Runs

  lemma {:induction false} RunsCompose(w: World, a: seq<Event>, b: seq<Event>)
    ensures Run(w, a + b) == Run(Run(w, a), b)
    ensures Possible(w, a + b) <==> Possible(w, a) && Possible(Run(w, a), b)
    decreases |a|
  {
    if a == [] {
      assert a + b == b;
    } else {
      assert (a + b)[1..] == a[1..] + b;
      RunsCompose(Step(w, a[0]), a[1..], b);
    }
  }

  lemma BagIsTheQueue(q: seq<Command>)
    ensures Bag(q) == multiset(Requests(q))
    decreases |q|
  {
    if q == [] {
    } else {
      BagIsTheQueue(q[1..]);
      assert Requests(q) == [q[0].req] + Requests(q[1..]);
    }
  }

  /** Every reachable state satisfies the invariant. */
  lemma Reachable(v: Value, a: Address, evs: seq<Event>)
    requires Possible(Boot(v, a), evs)
    ensures Inv(Run(Boot(v, a), evs))
  {
    RunKeeps(Boot(v, a), evs);
  }

  /** Accepted commands are queued, completed or given up on: none is lost, none is invented. */
  lemma CommandsAreConserved(v: Value, a: Address, evs: seq<Event>)
    requires Possible(Boot(v, a), evs)
    ensures var w := Run(Boot(v, a), evs);
            && w.hist.accepted == multiset(Requests(w.hub.queue)) + w.hist.completed + w.hist.exhausted
            && |w.hist.accepted| == |w.hub.queue| + |w.hist.completed| + |w.hist.exhausted|
            && forall i :: 0 <= i < |w.hub.queue| ==> 1 <= w.hub.queue[i].retries <= MAX_CMD_RETRIES
  {
    Reachable(v, a, evs);
    var w := Run(Boot(v, a), evs);
    BagIsTheQueue(w.hub.queue);
    assert |multiset(Requests(w.hub.queue))| == |w.hub.queue|;
  }

  /** A request is dropped exactly when it repeats the last command queued for its device. */
  lemma DroppedExactlyWhenPending(w: World, r: Request)
    ensures StillPending(w.hub.queue, r) <==> Step(w, HandleRequest(r)).hub.queue == w.hub.queue
    ensures !StillPending(w.hub.queue, r) <==>
              Step(w, HandleRequest(r)).hub.queue == w.hub.queue + [Command(r, MAX_CMD_RETRIES)]
    ensures Step(w, HandleRequest(r)).hist.accepted ==
              if StillPending(w.hub.queue, r) then w.hist.accepted else w.hist.accepted + multiset{r}
  {
    var q' := Step(w, HandleRequest(r)).hub.queue;
    assert |w.hub.queue + [Command(r, MAX_CMD_RETRIES)]| != |w.hub.queue|;
  }

  /** The hub restarts only on request, between operations, and when every accepted command is accounted for. */
  lemma RebootOnlyWhenAllIsDone(v: Value, a: Address, evs: seq<Event>, ev: Event)
    requires Possible(Boot(v, a), evs + [ev])
    requires Run(Boot(v, a), evs + [ev]).hist.rebooted
    ensures var w := Run(Boot(v, a), evs);
            && ev == Tick
            && w.hub.rebootRequested && !w.hub.action.inProgress && !w.hub.delay.running
            && w.hub.queue == []
            && w.hist.accepted == w.hist.completed + w.hist.exhausted
  {
    var w := Run(Boot(v, a), evs);
    RunsCompose(Boot(v, a), evs, [ev]);
    assert Run(w, [ev]) == Step(w, ev) by { assert Run(Step(w, ev), []) == Step(w, ev); }
    Reachable(v, a, evs);
    OnlyTicksReboot(w, ev);
  }

  lemma OnlyTicksReboot(w: World, ev: Event)
    requires Inv(w) && CanHappen(w, ev)
    ensures Step(w, ev).hist.rebooted <==>
              ev == Tick && !w.hub.delay.running && !w.hub.action.inProgress && w.hub.queue == [] &&
                  w.hub.rebootRequested
  {
    match ev
    case Tick =>
      if w.hub.delay.running {
        DelayTickKeeps(w);
      } else if w.hub.action.inProgress {
        WatchdogTickKeeps(w);
      } else {
        IdleTickKeeps(w);
      }
    case HandleRequest(_) =>
    case ScheduleReboot =>
    case WifiDone(_) =>
    case _ => GattFrame(w, ev);
  }

  /** In every reachable state a timer is running exactly when the hub believes so, and never two. */
  lemma OneTimerAtMost(v: Value, a: Address, evs: seq<Event>)
    requires Possible(Boot(v, a), evs)
    ensures var w := Run(Boot(v, a), evs);
            && w.hist.pendingTicks == (if w.hub.action.outstanding then 1 else 0)
            && (w.hub.delay.running ==> w.hist.pendingTicks == 1)
  {
    Reachable(v, a, evs);
  }

  /**
   * A request to reboot is never withdrawn, and the first tick that finds nothing delayed, under way
   * or queued carries it out.
   */
  lemma {:induction false} RebootRequestStands(w: World, evs: seq<Event>)
    requires Inv(w) && w.hub.rebootRequested && Possible(w, evs)
    ensures var w' := Run(w, evs);
            && w'.hub.rebootRequested
            && (CanHappen(w', Tick) && !w'.hub.delay.running && !w'.hub.action.inProgress && w'.hub.queue == [] ==>
                  Step(w', Tick).hist.rebooted)
    decreases |evs|
  {
    hide Inv;
    if evs == [] {
      if CanHappen(w, Tick) { OnlyTicksReboot(w, Tick); }
    } else {
      StepKeeps(w, evs[0]);
      KeepsRebootRequest(w, evs[0]);
      RebootRequestStands(Step(w, evs[0]), evs[1..]);
    }
  }

  lemma KeepsRebootRequest(w: World, ev: Event)
    ensures Step(w, ev).hub.rebootRequested == (w.hub.rebootRequested || ev == ScheduleReboot)
  {
    hide Enqueued, Succeeded, AfterFailure;
  }

  // ------------------------------------------------------ the command in flight

  /**
   * From run_command until the next completion, whatever happens in between, the
   * head of the queue is the command that was started, and the bytes and address
   * prepared for it are exactly its encoding and its valve.
   */
  lemma InFlightAgreement(v: Value, a: Address, evs: seq<Event>)
    requires Possible(Boot(v, a), evs) && Run(Boot(v, a), evs).hist.inFlight != []
    ensures var w := Run(Boot(v, a), evs);
            && w.hub.queue != []
            && w.hist.inFlight == [w.hub.queue[0]]
            && w.hub.action.cmdBleda == w.hub.queue[0].req.bleda
            && w.hub.queue[0].req.kind != Eco
            && w.hub.action.cmdVal[..w.hub.action.cmdLen] == Encode(w.hub.queue[0].req)
  {
    Reachable(v, a, evs);
  }

  /** Only a completion of its own ends a flight: every other event leaves the same command in flight at the head. */
  lemma InFlightUntilCompletion(w: World, ev: Event)
    requires Inv(w) && CanHappen(w, ev) && w.hist.inFlight != []
    ensures var c, q, w' := w.hist.inFlight[0], w.hub.queue, Step(w, ev);
            || (w'.hist.inFlight == [c] && w'.hub.queue != [] && w'.hub.queue[0] == c)
            || (w'.hist.inFlight == [] && (w'.hub.queue == Succeeded(q) || w'.hub.queue == AfterFailure(q)))
  {
    match ev
    case Tick =>
      if w.hub.delay.running {
        DelayTickKeepsQueue(w);
      } else if w.hub.action.inProgress {
        WatchdogTickKeeps(w);
      } else {
        IdleTickKeeps(w);
      }
    case HandleRequest(_) =>
    case ScheduleReboot =>
    case WifiDone(_) =>
    case _ => GattFrame(w, ev);
  }

  lemma DelayTickKeepsQueue(w: World)
    requires w.hub.delay.running
    ensures Step(w, Tick).hub.queue == w.hub.queue && Step(w, Tick).hist.inFlight == w.hist.inFlight
  {
    assert Step(w, Tick) == DelayTick(TickDelivered(w));
  }

  /** While a command is in flight, just what is then written, once notifications are on, carries that command. */
  lemma WritesCarryTheCommandInFlight(w: World, ev: Event)
    requires Inv(w) && CanHappen(w, ev) && w.hist.inFlight != []
    ensures Step(w, ev).hist.written ==
              w.hist.written + if ev == NotifyReady(true) then [Encode(w.hist.inFlight[0].req)] else []
  {
    match ev
    case Tick =>
      if w.hub.delay.running {
        DelayTickKeeps(w);
      } else if w.hub.action.inProgress {
        WatchdogTickKeeps(w);
      } else {
        IdleTickKeeps(w);
      }
    case HandleRequest(_) =>
    case ScheduleReboot =>
    case WifiDone(_) =>
    case _ => GattFrame(w, ev);
  }

  // ---------------------------------------------------------- delayed commands

  /** WiFi coming up cancels a pending WiFi restart; nothing else cancels anything. */
  predicate Cancels(ev: Event, cmd: Delayed) {
    ev == WifiDone(true) && cmd == RestartWifi
  }

  function Ticks(evs: seq<Event>): (n: nat) {
    if evs == [] then 0 else (if evs[0] == Tick then 1 else 0) + Ticks(evs[1..])
  }

  /** Any other event leaves a running delay, its command and its count exactly as they are. */
  lemma DelayUndisturbed(w: World, ev: Event)
    requires w.hub.delay.running && ev != Tick && !Cancels(ev, w.hub.delay.cmd)
    ensures Step(w, ev).hub.delay == w.hub.delay
    ensures Step(w, ev).hist.fired == w.hist.fired && Step(w, ev).hist.rebooted == w.hist.rebooted
  {
    match ev
    case HandleRequest(_) =>
    case ScheduleReboot =>
    case WifiDone(_) =>
    case Tick =>
    case _ => GattFrame(w, ev);
  }

  /** Short of its last tick a delay only counts down, whatever else happens. */
  lemma {:induction false} DelayCountsDown(w: World, evs: seq<Event>)
    requires Inv(w) && Possible(w, evs) && w.hub.delay.running
    requires forall i :: 0 <= i < |evs| ==> !Cancels(evs[i], w.hub.delay.cmd)
    requires Ticks(evs) < w.hub.delay.countdown
    ensures Run(w, evs).hub.delay == w.hub.delay.(countdown := w.hub.delay.countdown - Ticks(evs))
    ensures Run(w, evs).hist.fired == w.hist.fired && Run(w, evs).hist.rebooted == w.hist.rebooted
    ensures Run(w, evs).hub.action.outstanding && Run(w, evs).hist.pendingTicks == 1
    decreases |evs|
  {
    if evs != [] {
      StepKeeps(w, evs[0]);
      if evs[0] == Tick { DelayTickKeeps(w); } else { DelayUndisturbed(w, evs[0]); }
      assert forall i :: 0 <= i < |evs[1..]| ==> evs[1..][i] == evs[i + 1];
      DelayCountsDown(Step(w, evs[0]), evs[1..]);
    }
  }

  /** A command delayed by k ticks fires on the k-th tick, once, unless it is cancelled first. */
  lemma DelayFiresOnItsTick(w: World, evs: seq<Event>)
    requires Inv(w) && w.hub.delay.running && !w.hist.rebooted && Possible(w, evs)
    requires forall i :: 0 <= i < |evs| ==> !Cancels(evs[i], w.hub.delay.cmd)
    requires Ticks(evs) + 1 == w.hub.delay.countdown
    ensures Possible(w, evs + [Tick])
    ensures Run(w, evs).hist.fired == w.hist.fired
    ensures Run(w, evs + [Tick]).hist.fired == w.hist.fired + [w.hub.delay.cmd]
    ensures !Run(w, evs + [Tick]).hub.delay.running
  {
    RunsCompose(w, evs, [Tick]);
    DelayCountsDown(w, evs);
    var w1 := Run(w, evs);
    assert Run(w1, [Tick]) == Step(w1, Tick) by { assert Run(Step(w1, Tick), []) == Step(w1, Tick); }
    assert Possible(Step(w1, Tick), [Tick][1..]);
    RunKeeps(w, evs);
    DelayTickKeeps(w1);
  }

  /** When WiFi is lost, the return to station mode is scheduled exactly when nothing else is delayed at that moment. */
  lemma RetryIsScheduledExactly(w: World)
    ensures Step(w, WifiDone(false)).hub.delay == NextCmd(true, RestartWifi, 300)
            <==> !w.hub.delay.running || w.hub.delay == NextCmd(true, RestartWifi, 300)
    ensures w.hub.delay.running ==> Step(w, WifiDone(false)).hub.delay == w.hub.delay
  {
  }

  /** Then station mode is tried again on the 300th tick, unless WiFi comes up before. */
  lemma StationIsRetried(w: World, evs: seq<Event>)
    requires Inv(w) && CanHappen(w, WifiDone(false)) && !w.hub.delay.running
    requires Possible(Step(w, WifiDone(false)), evs) && WifiDone(true) !in evs && Ticks(evs) == 299
    ensures var w1 := Step(w, WifiDone(false));
            && Possible(w1, evs + [Tick])
            && Run(w1, evs).hist.fired == w.hist.fired
            && Run(w1, evs + [Tick]).hist.fired == w.hist.fired + [RestartWifi]
  {
    StepKeeps(w, WifiDone(false));
    RetryIsScheduledExactly(w);
    DelayFiresOnItsTick(Step(w, WifiDone(false)), evs);
  }

  // ------------------------------------------------------------- waking up again

  /** There is a command to send, or a restart to make. */
  predicate HasWork(h: Hub) {
    h.queue != [] || h.rebootRequested
  }

  /** The hub will move on its own: a tick is due, or there is nothing to do and nothing to wait for. */
  predicate Armed(h: Hub) {
    h.action.outstanding || (!HasWork(h) && !h.action.inProgress)
  }

  /**
   * The two events that leave the hub to others: run_command, which starts an
   * operation but no timer, and the last tick of a WiFi delay, which is spent on
   * WiFi while there is work or an operation under way.
   */
  predicate Disarms(h: Hub, ev: Event) {
    && ev == Tick
    && if h.delay.running
       then h.delay.countdown <= 1 && h.delay.cmd != Disconnect && (HasWork(h) || h.action.inProgress)
       else !h.action.inProgress && h.queue != []
  }

  /** The events that make a hub with no timer move on its own again. */
  predicate Rearms(h: Hub, ev: Event) {
    match ev
    case HandleRequest(_) => !h.action.inProgress
    case ScheduleReboot => !h.action.inProgress
    case WifiDone(connected) => !connected
    case Tick => false
    case Connected(_) => false
    case Opened(ok) => !ok
    case Closed(_) => true
    case MtuSet(ok) => !ok
    case SearchResult(_) => false
    case SearchDone(ok, count) => !(ok && h.action.getServer && count > 0)
    case NotifyReady(ok) => !ok
    case Notified(unregistering) => !unregistering
    case Unregistered => true
    case Written(ok) => !ok
    case Disconnected(byLocalHost) => !byLocalHost || !HasWork(h)
  }

  /** For every event in every reachable state: exactly when the hub moves on its own afterwards. */
  lemma ArmedUnlessStranded(w: World, ev: Event)
    requires Inv(w) && CanHappen(w, ev)
    ensures Step(w, ev).hist.rebooted
            || (Armed(Step(w, ev).hub) <==> if Armed(w.hub) then !Disarms(w.hub, ev) else Rearms(w.hub, ev))
  {
    hide Inv;
    TicksComeFromTimers(w);
    match ev
    case HandleRequest(r) => RequestKeepsArmed(w, r);
    case ScheduleReboot =>
    case WifiDone(_) =>
    case Tick => TickKeepsArmed(w);
    case _ =>
      GattKeepsArmed(w, ev);
      assert !Disarms(w.hub, ev);
  }

  lemma TicksComeFromTimers(w: World)
    requires Inv(w)
    ensures CanHappen(w, Tick) <==> !w.hist.rebooted && w.hub.action.outstanding
  {
  }

  lemma RequestKeepsArmed(w: World, r: Request)
    ensures Armed(OnRequest(w, r).hub) <==> Armed(w.hub) || !w.hub.action.inProgress
  {
    hide IsStillPending, StillPending;
    var q' := Enqueued(w.hub.queue, Command(r, MAX_CMD_RETRIES));
    assert q' != [] by { NeverEmptied(w.hub.queue, Command(r, MAX_CMD_RETRIES)); }
  }

  lemma NeverEmptied(q: seq<Command>, c: Command)
    ensures Enqueued(q, c) != []
  {
  }

  lemma TickKeepsArmed(w: World)
    requires Inv(w) && w.hub.action.outstanding && !w.hist.rebooted
    ensures Step(w, Tick).hist.rebooted || (Armed(Step(w, Tick).hub) <==> !Disarms(w.hub, Tick))
  {
    hide GattcCommandError, Inv;
    var w0 := TickDelivered(w);
    if w.hub.delay.running {
      DelayTickArms(w);
    } else if w.hub.action.inProgress {
      var a := w0.hub.action;
      assert Step(w, Tick) == WatchdogTick(w0);
      CompletionFrame(w0.(hub := w0.hub.(action := a.(inProgress := false, opTime := 0))), false, a.cmdBleda);
    } else {
      assert Step(w, Tick) == IdleTick(w0);
    }
  }

  lemma DelayTickArms(w: World)
    requires w.hub.delay.running
    ensures Armed(Step(w, Tick).hub) <==> !Disarms(w.hub, Tick)
  {
    var w0 := TickDelivered(w);
    var w1 := w0.(hub := w0.hub.(delay := w.hub.delay.(countdown := w.hub.delay.countdown - 1)));
    assert Step(w, Tick) == DelayTick(w0);
    FireFrame(w1);
  }

  /** A completed or failed command always leaves a timer running. */
  lemma CompletionArms(w: World, success: bool, bleda: Address)
    ensures Armed((if success then CommandSucceeded(w) else GattcCommandError(w, bleda)).hub)
  {
    hide CommandSucceeded, GattcCommandError;
    CompletionFrame(w, success, bleda);
  }

  lemma GattKeepsArmed(w: World, ev: Event)
    requires !ev.HandleRequest? && !ev.ScheduleReboot? && !ev.WifiDone? && !ev.Tick?
    ensures Armed(OnGatt(w, ev).hub) <==> Armed(w.hub) || Rearms(w.hub, ev)
  {
    hide CommandSucceeded, GattcCommandError;
    var a := w.hub.action;
    match ev
    case Connected(_) =>
    case Opened(_) => CompletionArms(w, false, a.cmdBleda);
    case Closed(_) =>
    case MtuSet(_) => CompletionArms(w, false, w.hub.remoteBda);
    case SearchResult(_) =>
    case SearchDone(_, _) => CompletionArms(w, false, w.hub.remoteBda);
    case NotifyReady(_) => CompletionArms(w, false, w.hub.remoteBda);
    case Notified(_) => CompletionArms(w, true, w.hub.remoteBda);
    case Unregistered => CompletionArms(w, true, w.hub.remoteBda);
    case Written(_) => CompletionArms(w, false, w.hub.remoteBda);
    case Disconnected(_) =>
      CompletionArms(w.(hub := w.hub.(action := a.(getServer := false, inProgress := false))), false, a.cmdBleda);
  }

  // --------------------------------------------------------- what a silent stack leaves

  /** An operation is under way and no timer watches it. */
  predicate Unwatched(h: Hub) {
    h.action.inProgress && !h.action.outstanding
  }

  /** Starting a command leaves it unwatched: no tick is due, and none can come. */
  lemma StartedIsUnwatched(w: World)
    requires Inv(w) && CanHappen(w, Tick) && !w.hub.delay.running && !w.hub.action.inProgress && w.hub.queue != []
    ensures var w' := Step(w, Tick);
            && Unwatched(w'.hub) && w'.hist.inFlight == [w.hub.queue[0]] && !w'.hist.rebooted
            && w'.hub.queue == w.hub.queue && !CanHappen(w', Tick)
  {
    IdleTickKeeps(w);
    assert Step(w, Tick) == IdleTick(TickDelivered(w));
  }

  /** Exactly which events leave an operation unwatched. */
  predicate LeavesUnwatched(h: Hub, ev: Event) {
    if ev == Tick then
      if h.delay.running
      then h.delay.countdown <= 1 && h.delay.cmd != Disconnect && h.action.inProgress
      else !h.action.inProgress && h.queue != []
    else
      Unwatched(h) && !Rearms(h, ev) && !ev.Disconnected?
  }

  lemma UnwatchedExactly(w: World, ev: Event)
    requires Inv(w) && CanHappen(w, ev)
    ensures Unwatched(Step(w, ev).hub) <==> LeavesUnwatched(w.hub, ev)
  {
    hide GattcCommandError, CommandSucceeded, Inv, IsStillPending, StillPending;
    TicksComeFromTimers(w);
    match ev
    case HandleRequest(_) =>
    case ScheduleReboot =>
    case WifiDone(_) =>
    case Tick => TickWatches(w);
    case _ => GattWatches(w, ev);
  }

  lemma TickWatches(w: World)
    requires Inv(w) && w.hub.action.outstanding
    ensures Unwatched(Step(w, Tick).hub) <==> LeavesUnwatched(w.hub, Tick)
  {
    hide GattcCommandError, Inv;
    var w0 := TickDelivered(w);
    if w.hub.delay.running {
      var w1 := w0.(hub := w0.hub.(delay := w.hub.delay.(countdown := w.hub.delay.countdown - 1)));
      assert Step(w, Tick) == DelayTick(w0);
      FireFrame(w1);
    } else if w.hub.action.inProgress {
      var a := w0.hub.action;
      assert Step(w, Tick) == WatchdogTick(w0);
      CompletionFrame(w0.(hub := w0.hub.(action := a.(inProgress := false, opTime := 0))), false, a.cmdBleda);
    } else {
      assert Step(w, Tick) == IdleTick(w0);
    }
  }

  lemma CompletionWatches(w: World, success: bool, bleda: Address)
    ensures !Unwatched((if success then CommandSucceeded(w) else GattcCommandError(w, bleda)).hub)
  {
    hide CommandSucceeded, GattcCommandError;
    CompletionFrame(w, success, bleda);
  }

  lemma GattWatches(w: World, ev: Event)
    requires !ev.HandleRequest? && !ev.ScheduleReboot? && !ev.WifiDone? && !ev.Tick?
    ensures Unwatched(OnGatt(w, ev).hub) <==> LeavesUnwatched(w.hub, ev)
  {
    hide CommandSucceeded, GattcCommandError;
    var a := w.hub.action;
    match ev
    case Connected(_) =>
    case Opened(_) => CompletionWatches(w, false, a.cmdBleda);
    case Closed(_) =>
    case MtuSet(_) => CompletionWatches(w, false, w.hub.remoteBda);
    case SearchResult(_) =>
    case SearchDone(_, _) => CompletionWatches(w, false, w.hub.remoteBda);
    case NotifyReady(_) => CompletionWatches(w, false, w.hub.remoteBda);
    case Notified(_) => CompletionWatches(w, true, w.hub.remoteBda);
    case Unregistered => CompletionWatches(w, true, w.hub.remoteBda);
    case Written(_) => CompletionWatches(w, false, w.hub.remoteBda);
    case Disconnected(_) =>
      CompletionWatches(w.(hub := w.hub.(action := a.(getServer := false, inProgress := false))), false, a.cmdBleda);
  }

  /** What can still happen when the BLE stack is silent and WiFi stays up. */
  predicate Silent(ev: Event) {
    ev.HandleRequest? || ev.ScheduleReboot? || ev == WifiDone(true) || ev == Tick
  }

  /**
   * While the BLE stack is silent, an unwatched operation stands still for ever: no tick comes,
   * nothing is given up or sent.
   */
  lemma {:induction false} SilentStackStandsStill(w: World, evs: seq<Event>)
    requires Inv(w) && Unwatched(w.hub) && Possible(w, evs)
    requires forall i :: 0 <= i < |evs| ==> Silent(evs[i])
    ensures var w' := Run(w, evs);
            && w'.hub.action == w.hub.action && w'.hist.inFlight == w.hist.inFlight && w.hub.queue <= w'.hub.queue
            && w'.hist.completed == w.hist.completed && w'.hist.exhausted == w.hist.exhausted
            && w'.hist.written == w.hist.written && !CanHappen(w', Tick)
    decreases |evs|
  {
    if evs != [] {
      StepKeeps(w, evs[0]);
      StandsStill(w, evs[0]);
      assert forall i :: 0 <= i < |evs[1..]| ==> evs[1..][i] == evs[i + 1];
      SilentStackStandsStill(Step(w, evs[0]), evs[1..]);
    }
  }

  lemma StandsStill(w: World, ev: Event)
    requires Inv(w) && Unwatched(w.hub) && CanHappen(w, ev) && Silent(ev)
    ensures var w' := Step(w, ev);
            && w'.hub.action == w.hub.action && w'.hist.inFlight == w.hist.inFlight && w.hub.queue <= w'.hub.queue
            && w'.hist.completed == w.hist.completed && w'.hist.exhausted == w.hist.exhausted
            && w'.hist.written == w.hist.written
  {
    hide IsStillPending, StillPending;
  }

  // ------------------------------------------------------------- witnesses from boot

  /** `n` ticks in a row. */
  function TickRun(n: nat): (evs: seq<Event>)
    ensures |evs| == n && forall i :: 0 <= i < n ==> evs[i] == Tick
  {
    seq(n, i => Tick)
  }

  lemma OneTickThenRest(w: World, n: nat)
    requires n > 0
    ensures TickRun(n)[1..] == TickRun(n - 1)
    ensures Possible(w, TickRun(n)) <==> CanHappen(w, Tick) && Possible(Step(w, Tick), TickRun(n - 1))
    ensures Run(w, TickRun(n)) == Run(Step(w, Tick), TickRun(n - 1))
  {
    hide Step, CanHappen;
    assert TickRun(n)[1..] == TickRun(n - 1);
  }

  lemma NoTicks(w: World)
    ensures Possible(w, TickRun(0)) && Run(w, TickRun(0)) == w
  {
  }

  lemma {:induction false} WifiDelayRunsOut(w: World, k: nat)
    requires Inv(w) && w.hub.delay == NextCmd(true, StartWifi, k) && !w.hist.rebooted && !w.hub.action.inProgress
    ensures Possible(w, TickRun(k))
    ensures var w' := Run(w, TickRun(k));
            && w'.hub.queue == w.hub.queue && !w'.hub.action.inProgress && !w'.hub.action.outstanding
            && !w'.hub.delay.running && !w'.hist.rebooted && w'.hub.rebootRequested == w.hub.rebootRequested
    decreases k
  {
    DelayTickKeeps(w);
    WifiTick(w);
    OneTickThenRest(w, k);
    if k > 1 {
      WifiDelayRunsOut(Step(w, Tick), k - 1);
    } else {
      NoTicks(Step(w, Tick));
    }
  }

  lemma WifiTick(w: World)
    requires Inv(w) && w.hub.delay.running && w.hub.delay.cmd == StartWifi
    ensures var w', d := Step(w, Tick), w.hub.delay;
            && w'.hub.queue == w.hub.queue && w'.hub.rebootRequested == w.hub.rebootRequested
            && w'.hub.action == w.hub.action.(outstanding := d.countdown > 1)
  {
  }

  /** A request made during the boot delay waits until some later event restarts the timer. */
  lemma BootDelayStrandsAnEarlyRequest(v: Value, a: Address, r: Request)
    requires r.kind != Eco
    ensures var evs := [HandleRequest(r)] + TickRun(5);
            && Possible(Boot(v, a), evs)
            && Run(Boot(v, a), evs).hub.queue == [Command(r, MAX_CMD_RETRIES)]
            && !Armed(Run(Boot(v, a), evs).hub) && !Run(Boot(v, a), evs).hub.action.inProgress
  {
    var w0, w1 := Boot(v, a), Step(Boot(v, a), HandleRequest(r));
    StepKeeps(w0, HandleRequest(r));
    assert w1.hub.queue == [Command(r, MAX_CMD_RETRIES)];
    WifiDelayRunsOut(w1, 5);
    assert ([HandleRequest(r)] + TickRun(5))[1..] == TickRun(5);
  }

  /** The shortest way to a command in flight: the boot delay, a request, and the tick that starts it. */
  function FirstCommand(r: Request): (evs: seq<Event>) {
    TickRun(5) + [HandleRequest(r)] + [Tick]
  }

  lemma OneMore(w: World, evs: seq<Event>, ev: Event)
    requires Possible(w, evs) && CanHappen(Run(w, evs), ev)
    ensures Possible(w, evs + [ev]) && Run(w, evs + [ev]) == Step(Run(w, evs), ev)
  {
    var w1 := Run(w, evs);
    RunsCompose(w, evs, [ev]);
    assert [ev][1..] == [];
    assert Possible(Step(w1, ev), []) && Run(Step(w1, ev), []) == Step(w1, ev);
  }

  /**
   * From boot an operation can get under way that no timer watches: if the BLE stack then stays
   * silent, it is never given up.
   */
  lemma FirstCommandIsUnwatched(v: Value, a: Address, r: Request)
    requires r.kind != Eco
    ensures var w := Run(Boot(v, a), FirstCommand(r));
            && Possible(Boot(v, a), FirstCommand(r)) && Inv(w)
            && Unwatched(w.hub) && w.hist.inFlight == [Command(r, MAX_CMD_RETRIES)] == w.hub.queue
            && !w.hist.rebooted && !CanHappen(w, Tick)
  {
    var w0 := Boot(v, a);
    WifiDelayRunsOut(w0, 5);
    Reachable(v, a, TickRun(5));
    var w1 := Run(w0, TickRun(5));
    OneMore(w0, TickRun(5), HandleRequest(r));
    StepKeeps(w1, HandleRequest(r));
    var w2 := Step(w1, HandleRequest(r));
    FirstRequest(w1, r);
    StartedIsUnwatched(w2);
    OneMore(w0, TickRun(5) + [HandleRequest(r)], Tick);
    Reachable(v, a, FirstCommand(r));
  }

  lemma FirstRequest(w: World, r: Request)
    requires w.hub.queue == [] && !w.hub.action.inProgress && !w.hub.action.outstanding && Inv(w)
    ensures var w' := Step(w, HandleRequest(r));
            && w'.hub.queue == [Command(r, MAX_CMD_RETRIES)] && w'.hub.delay == w.hub.delay
            && !w'.hub.action.inProgress && w'.hist.pendingTicks == 1 && w'.hist.rebooted == w.hist.rebooted
  {
    assert IsStillPending([], r) == false;
  }

  /**
   * A link that goes down at the local end leaves the command in the queue with no timer, no operation
   * and no completion.
   */
  lemma LocalDisconnectStrandsTheCommand(v: Value, a: Address, r: Request)
    requires r.kind != Eco
    ensures var evs := FirstCommand(r) + [Disconnected(true)];
            var w := Run(Boot(v, a), evs);
            && Possible(Boot(v, a), evs) && w.hub.queue == [Command(r, MAX_CMD_RETRIES)]
            && !Armed(w.hub) && !w.hub.action.inProgress
  {
    FirstCommandIsUnwatched(v, a, r);
    OneMore(Boot(v, a), FirstCommand(r), Disconnected(true));
  }

  // ------------------------------------------------------------------ watchdog

  /** The ticks until an operation has lasted 40: a running delay uses up its own first. */
  function TicksToTimeout(h: Hub): (n: int) {
    (if h.delay.running then h.delay.countdown else 0) + (BLE_OPERATION_TIMEOUT - h.action.opTime)
  }

  /** How many ticks can come if nothing else happens: none without a timer, and none behind a WiFi delay. */
  function TicksToCome(h: Hub): (n: int) {
    if !h.action.outstanding then 0
    else if h.delay.running && h.delay.cmd != Disconnect then h.delay.countdown
    else TicksToTimeout(h)
  }

  /**
   * An operation left alone is given up, and its command charged an attempt, on
   * exactly the tick that makes it last 40; but that tick comes if and only if a
   * timer is outstanding and no WiFi delay stands in front of it.
   */
  lemma {:induction false} WatchdogGivesUp(w: World, n: nat)
    requires Inv(w) && w.hub.action.inProgress && !w.hist.rebooted && n <= TicksToTimeout(w.hub)
    ensures Possible(w, TickRun(n)) <==> n <= TicksToCome(w.hub)
    ensures Possible(w, TickRun(n)) ==>
              var w' := Run(w, TickRun(n));
              if n < TicksToTimeout(w.hub) then w'.hub.action.inProgress && w'.hub.queue == w.hub.queue
              else !w'.hub.action.inProgress && w'.hub.queue == AfterFailure(w.hub.queue)
    decreases n
  {
    hide Inv, Possible, Run, Step, CanHappen, TickRun, AfterFailure;
    NoTicks(w);
    OperationTimes(w);
    if n > 0 {
      OneTickThenRest(w, n);
      TicksComeFromTimers(w);
      if w.hub.action.outstanding {
        StepKeeps(w, Tick);
        OperationTick(w);
        var w1 := Step(w, Tick);
        if n > 1 {
          WatchdogGivesUp(w1, n - 1);
        } else {
          NoTicks(w1);
        }
      }
    }
  }

  lemma OperationTimes(w: World)
    requires Inv(w)
    ensures 0 < TicksToTimeout(w.hub) && (w.hub.action.outstanding ==> 0 < TicksToCome(w.hub))
  {
  }

  /** One tick of an operation brings its end one tick nearer. */
  lemma OperationTick(w: World)
    requires Inv(w) && w.hub.action.inProgress && w.hub.action.outstanding && !w.hist.rebooted
    ensures var h, h' := w.hub, Step(w, Tick).hub;
            && !Step(w, Tick).hist.rebooted
            && if TicksToTimeout(h) > 1
               then h'.action.inProgress && h'.queue == h.queue && TicksToTimeout(h') == TicksToTimeout(h) - 1
                    && TicksToCome(h') == TicksToCome(h) - 1
               else !h'.action.inProgress && h'.queue == AfterFailure(h.queue)
  {
    hide GattcCommandError;
    var w0 := TickDelivered(w);
    if w.hub.delay.running {
      DelayTickKeeps(w);
      assert Step(w, Tick) == DelayTick(w0);
      FireFrame(w0.(hub := w0.hub.(delay := w.hub.delay.(countdown := w.hub.delay.countdown - 1))));
    } else {
      WatchdogTickKeeps(w);
      assert Step(w, Tick) == WatchdogTick(w0);
      var a := w0.hub.action;
      CompletionFrame(w0.(hub := w0.hub.(action := a.(inProgress := false, opTime := 0))), false, a.cmdBleda);
    }
  }
}
