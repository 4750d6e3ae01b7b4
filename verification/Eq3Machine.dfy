// The event-driven scheduler of main/eq3_main.c as a transition function:
// requests, one-second ticks, WiFi callbacks and GATT events arrive one at a
// time; each changes the hub's state, and what it does to the outside world is
// recorded in a history.
module Eq3Machine {
  import opened Bytes
  import opened Eq3Commands

  const BLE_OPERATION_TIMEOUT: int := 40
  const CMD_VAL_SIZE: nat := 20

  /** The characteristic value buffer, and how much of it is in use. */
  type Value = v: seq<byte> | |v| == CMD_VAL_SIZE witness seq(CMD_VAL_SIZE, i => 0)
  type ValueLen = n: nat | n <= CMD_VAL_SIZE

  /** The delayed commands that setnextcmd is given. */
  datatype Delayed = Disconnect | StartWifi | RestartWifi

  /** struct _action */
  datatype Action = Action(
    cmdLen: ValueLen, cmdVal: Value, cmdBleda: Address,
    getServer: bool, connectionOpen: bool, inProgress: bool, opTime: int, outstanding: bool)

  /** struct tmrcmd */
  datatype NextCmd = NextCmd(running: bool, cmd: Delayed, countdown: int)

  /** cmdqueue, current_action, nextcmd, reboot_requested and the peer address of the profile. */
  datatype Hub = Hub(queue: seq<Command>, action: Action, delay: NextCmd, rebootRequested: bool, remoteBda: Address)

  datatype Event =
    | HandleRequest(req: Request)
    | ScheduleReboot
    | WifiDone(connected: bool)
    | Tick
    | Connected(bda: Address)
    | Opened(ok: bool)
    | Closed(ok: bool)
    | MtuSet(ok: bool)
    | SearchResult(isEq3: bool)
    | SearchDone(ok: bool, count: nat)
    | NotifyReady(ok: bool)
    | Notified(unregistering: bool)
    | Unregistered
    | Written(ok: bool)
    | Disconnected(byLocalHost: bool)

  /** What the outside world, or an observer of the queue, gets to see. */
  datatype Effect =
    | StartTimer
    | Accepted(req: Request)
    | Dropped(req: Request)
    | Started(cmd: Command)
    | Completed(req: Request)
    | Exhausted(req: Request)
    | Retried(req: Request)
    | Report(bleda: Address)
    | GattOpen(bleda: Address)
    | GattSearch
    | GattWrite(value: seq<byte>)
    | GattClose
    | Fired(what: Delayed)
    | Reboot

  /** A summary of the effects so far. */
  datatype History = History(
    accepted: multiset<Request>, completed: multiset<Request>, exhausted: multiset<Request>,
    inFlight: seq<Command>,   // the command started by run_command and not yet completed: none or one
    pendingTicks: int,        // timers started and not yet delivered
    fired: seq<Delayed>,
    dialled: seq<Address>,
    written: seq<seq<byte>>,
    reported: seq<Address>,
    searches: nat,            // service discoveries started
    closes: nat,              // disconnects asked for
    rebooted: bool)

  function Observe(h: History, e: Effect): (h': History) {
    match e
    case StartTimer => h.(pendingTicks := h.pendingTicks + 1)
    case Accepted(r) => h.(accepted := h.accepted + multiset{r})
    case Started(c) => h.(inFlight := [c])
    case Completed(r) => h.(completed := h.completed + multiset{r}, inFlight := [])
    case Exhausted(r) => h.(exhausted := h.exhausted + multiset{r}, inFlight := [])
    case Retried(r) => h.(inFlight := [])
    case Report(a) => h.(reported := h.reported + [a])
    case GattOpen(a) => h.(dialled := h.dialled + [a])
    case GattSearch => h.(searches := h.searches + 1)
    case GattClose => h.(closes := h.closes + 1)
    case GattWrite(v) => h.(written := h.written + [v])
    case Fired(c) => h.(fired := h.fired + [c])
    case Reboot => h.(rebooted := true)
    case _ => h
  }

  const NothingSeen := History(multiset{}, multiset{}, multiset{}, [], 1, [], [], [], [], 0, 0, false)

  datatype World = World(hub: Hub, hist: History)

  function Emit(w: World, e: Effect): (w': World) {
    w.(hist := Observe(w.hist, e))
  }

  function SetNextCmd(d: NextCmd, cmd: Delayed, time: int): (d': NextCmd) {
    if d.running then d else NextCmd(true, cmd, time)
  }

  function RunTimer(w: World): (w': World) {
    if w.hub.action.outstanding then w
    else Emit(w.(hub := w.hub.(action := w.hub.action.(outstanding := true))), StartTimer)
  }

  function CommandComplete(w: World, success: bool): (w': World) {
    var q := w.hub.queue;
    if q == [] then w
    else if success then Emit(w.(hub := w.hub.(queue := Succeeded(q))), Completed(q[0].req))
    else
      Emit(w.(hub := w.hub.(queue := AfterFailure(q))),
           if FailureOutcome(q) == Failed then Exhausted(q[0].req) else Retried(q[0].req))
  }

  /** The tail shared by success and failure: disconnect two ticks from now. */
  function DisconnectLater(w: World): (w': World) {
    RunTimer(w.(hub := w.hub.(delay := SetNextCmd(w.hub.delay, Disconnect, 2))))
  }

  function GattcCommandError(w: World, bleda: Address): (w': World) {
    var w1 := CommandComplete(w, false);
    DisconnectLater(if FailureOutcome(w.hub.queue) == Failed then Emit(w1, Report(bleda)) else w1)
  }

  function CommandSucceeded(w: World): (w': World) {
    DisconnectLater(CommandComplete(w, true))
  }

  /** setup_command: the head's encoding goes to the front of the value buffer. */
  function SetupCommand(a: Action, r: Request): (a': Action) {
    var a1 := a.(cmdBleda := r.bleda);
    if r.kind == Eco then a1
    else a1.(cmdVal := Encode(r) + a.cmdVal[|Encode(r)|..], cmdLen := |Encode(r)|)
  }

  function RunCommand(w: World): (w': World) {
    if w.hub.queue == [] then w
    else
      var c := w.hub.queue[0];
      var a := SetupCommand(w.hub.action, c.req).(inProgress := true, opTime := 0);
      Emit(Emit(w.(hub := w.hub.(action := a)), Started(c)), GattOpen(a.cmdBleda))
  }

  /** handle_request, once the text is parsed. */
  function OnRequest(w: World, r: Request): (w': World) {
    var q := w.hub.queue;
    var w1 := Emit(w.(hub := w.hub.(queue := Enqueued(q, Command(r, MAX_CMD_RETRIES)))),
                   if IsStillPending(q, r) then Dropped(r) else Accepted(r));
    if w.hub.action.inProgress then w1 else RunTimer(w1)
  }

  function OnScheduleReboot(w: World): (w': World) {
    var w1 := w.(hub := w.hub.(rebootRequested := true));
    if w.hub.action.inProgress then w1 else RunTimer(w1)
  }

  function OnWifiDone(w: World, connected: bool): (w': World) {
    var d := w.hub.delay;
    if !connected then RunTimer(w.(hub := w.hub.(delay := SetNextCmd(d, RestartWifi, 300))))
    else if d.cmd == RestartWifi then w.(hub := w.hub.(delay := d.(countdown := 0, running := false)))
    else w
  }

  /** What a delayed command does when its time has come. */
  function Fire(w: World): (w': World) {
    var w1 := Emit(w, Fired(w.hub.delay.cmd));
    if w.hub.delay.cmd == Disconnect then
      RunTimer(if w.hub.action.connectionOpen then Emit(w1, GattClose) else w1)
    else w1
  }

  /** The timer event itself: it is delivered, and no timer is outstanding. */
  function TickDelivered(w: World): (w': World) {
    World(w.hub.(action := w.hub.action.(outstanding := false)), w.hist.(pendingTicks := w.hist.pendingTicks - 1))
  }

  function DelayTick(w: World): (w': World) {
    var w1 := w.(hub := w.hub.(delay := w.hub.delay.(countdown := w.hub.delay.countdown - 1)));
    if w1.hub.delay.countdown <= 0 then
      var w2 := Fire(w1);
      w2.(hub := w2.hub.(delay := w2.hub.delay.(running := false)))
    else RunTimer(w1)
  }

  function IdleTick(w: World): (w': World) {
    var w1 := RunCommand(w);
    if !w1.hub.action.inProgress && w1.hub.rebootRequested then Emit(w1, Reboot) else w1
  }

  function WatchdogTick(w: World): (w': World) {
    var a := w.hub.action;
    if a.opTime + 1 >= BLE_OPERATION_TIMEOUT then
      GattcCommandError(w.(hub := w.hub.(action := a.(inProgress := false, opTime := 0))), a.cmdBleda)
    else RunTimer(w.(hub := w.hub.(action := a.(opTime := a.opTime + 1))))
  }

  /** The timer branch of app_main's loop. */
  function OnTick(w: World): (w': World) {
    var w0 := TickDelivered(w);
    if w0.hub.delay.running then DelayTick(w0)
    else if !w0.hub.action.inProgress then IdleTick(w0)
    else WatchdogTick(w0)
  }

  function OnDisconnected(w: World, byLocalHost: bool): (w': World) {
    var w1 := w.(hub := w.hub.(action := w.hub.action.(getServer := false, inProgress := false)));
    if byLocalHost then w1 else GattcCommandError(w1, w1.hub.action.cmdBleda)
  }

  /** gattc_profile_event_handler */
  function OnGatt(w: World, ev: Event): (w': World) {
    var a := w.hub.action;
    match ev
    case Connected(bda) => w.(hub := w.hub.(remoteBda := bda))
    case Opened(ok) =>
      if ok then w.(hub := w.hub.(action := a.(connectionOpen := true))) else GattcCommandError(w, a.cmdBleda)
    case Closed(ok) => RunTimer(w.(hub := w.hub.(action := a.(connectionOpen := !ok && a.connectionOpen))))
    case MtuSet(ok) => if ok then Emit(w, GattSearch) else GattcCommandError(w, w.hub.remoteBda)
    case SearchResult(isEq3) => w.(hub := w.hub.(action := a.(getServer := isEq3 || a.getServer)))
    case SearchDone(ok, count) => if ok && a.getServer && count > 0 then w else GattcCommandError(w, w.hub.remoteBda)
    case NotifyReady(ok) =>
      if ok then Emit(w, GattWrite(a.cmdVal[..a.cmdLen])) else GattcCommandError(w, w.hub.remoteBda)
    case Notified(unregistering) => if unregistering then w else CommandSucceeded(w)
    case Unregistered => CommandSucceeded(w)
    case Written(ok) => if ok then w else GattcCommandError(w, w.hub.remoteBda)
    case Disconnected(byLocalHost) => OnDisconnected(w, byLocalHost)
    case _ => w
  }

  function Step(w: World, ev: Event): (w': World) {
    match ev
    case HandleRequest(r) => OnRequest(w, r)
    case ScheduleReboot => OnScheduleReboot(w)
    case WifiDone(connected) => OnWifiDone(w, connected)
    case Tick => OnTick(w)
    case _ => OnGatt(w, ev)
  }

  /** The hub as app_main enters its loop: WiFi is to start on the fifth tick, whose timer is running. */
  function Boot(value: Value, a: Address): (w: World) {
    World(Hub([], Action(0, value, a, false, false, false, 0, true), NextCmd(true, StartWifi, 5), false, a),
          NothingSeen)
  }
}
