// Which event enters, starts, completes or charges which command, and whom a
// report names: exactly, for every event in every reachable state.
module Eq3Completions {
  import opened Bytes
  import opened Eq3Commands
  import opened Eq3Machine
  import opened Eq3Runs
  import opened Eq3Safety

  /** The events that complete the head of the queue. */
  predicate Succeeds(ev: Event) {
    ev.Unregistered? || (ev.Notified? && !ev.unregistering)
  }

  /** The events that charge the head of the queue an attempt. */
  predicate Fails(h: Hub, ev: Event) {
    match ev
    case Tick =>
      h.action.outstanding && !h.delay.running && h.action.inProgress && h.action.opTime + 1 >= BLE_OPERATION_TIMEOUT
    case Opened(ok) => !ok
    case MtuSet(ok) => !ok
    case SearchDone(ok, count) => !(ok && h.action.getServer && count > 0)
    case NotifyReady(ok) => !ok
    case Written(ok) => !ok
    case Disconnected(byLocalHost) => !byLocalHost
    case _ => false
  }

  /** The tick that starts the head of the queue. */
  predicate Starts(h: Hub, ev: Event) {
    ev == Tick && !h.delay.running && !h.action.inProgress && h.queue != []
  }

  /** The address that a failure reports: that of the last command started, or of the last peer connected. */
  function Reporter(h: Hub, ev: Event): (a: Address) {
    if ev == Tick || ev.Opened? || ev.Disconnected? then h.action.cmdBleda else h.remoteBda
  }

  /** The commands queued, and what has become of the others. */
  datatype Ledger = Ledger(
    queue: seq<Command>, accepted: multiset<Request>, completed: multiset<Request>, exhausted: multiset<Request>,
    inFlight: seq<Command>, dialled: seq<Address>, reported: seq<Address>)

  function Book(w: World): (l: Ledger) {
    Ledger(w.hub.queue, w.hist.accepted, w.hist.completed, w.hist.exhausted, w.hist.inFlight, w.hist.dialled,
           w.hist.reported)
  }

  function Entered(l: Ledger, r: Request): (l': Ledger) {
    if IsStillPending(l.queue, r) then l
    else l.(queue := l.queue + [Command(r, MAX_CMD_RETRIES)], accepted := l.accepted + multiset{r})
  }

  function HeadCompleted(l: Ledger): (l': Ledger) {
    if l.queue == [] then l
    else l.(queue := l.queue[1..], completed := l.completed + multiset{l.queue[0].req}, inFlight := [])
  }

  /** A last attempt gives the command up and is reported, any other sends it to the back. */
  function HeadCharged(l: Ledger, a: Address): (l': Ledger) {
    if l.queue == [] then l
    else if l.queue[0].retries <= 1 then
      l.(queue := l.queue[1..], exhausted := l.exhausted + multiset{l.queue[0].req}, inFlight := [],
         reported := l.reported + [a])
    else l.(queue := l.queue[1..] + [Charged(l.queue[0])], inFlight := [])
  }

  lemma CompletionIsBooked(w: World, bleda: Address)
    ensures Book(CommandSucceeded(w)) == HeadCompleted(Book(w))
    ensures Book(GattcCommandError(w, bleda)) == HeadCharged(Book(w), bleda)
  {
  }

  lemma DisconnectionIsBooked(w: World, byLocalHost: bool)
    ensures Book(OnDisconnected(w, byLocalHost)) ==
              if byLocalHost then Book(w) else HeadCharged(Book(w), w.hub.action.cmdBleda)
  {
    hide GattcCommandError;
    var w1 := w.(hub := w.hub.(action := w.hub.action.(getServer := false, inProgress := false)));
    CompletionIsBooked(w1, w.hub.action.cmdBleda);
  }

  /** What an event does to the commands. */
  function Booked(l: Ledger, h: Hub, ev: Event): (l': Ledger) {
    if ev.HandleRequest? then Entered(l, ev.req)
    else if Succeeds(ev) then HeadCompleted(l)
    else if Fails(h, ev) then HeadCharged(l, Reporter(h, ev))
    else if Starts(h, ev) && l.queue != [] then
      l.(inFlight := [l.queue[0]], dialled := l.dialled + [l.queue[0].req.bleda])
    else l
  }

  /** A GATT event completes the head in one of two ways, or leaves the commands alone. */
  lemma GattCompletions(w: World, ev: Event)
    requires !ev.HandleRequest? && !ev.ScheduleReboot? && !ev.WifiDone? && !ev.Tick? && !ev.Disconnected?
    ensures Succeeds(ev) ==> OnGatt(w, ev) == CommandSucceeded(w)
    ensures !Succeeds(ev) && Fails(w.hub, ev) ==> OnGatt(w, ev) == GattcCommandError(w, Reporter(w.hub, ev))
    ensures !Succeeds(ev) && !Fails(w.hub, ev) ==> Book(OnGatt(w, ev)) == Book(w)
  {
    hide GattcCommandError, CommandSucceeded, OnDisconnected;
  }

  lemma GattIsBooked(w: World, ev: Event)
    requires !ev.HandleRequest? && !ev.ScheduleReboot? && !ev.WifiDone? && !ev.Tick?
    ensures Book(OnGatt(w, ev)) == Booked(Book(w), w.hub, ev)
  {
    hide GattcCommandError, CommandSucceeded, OnDisconnected, HeadCharged, HeadCompleted, Entered;
    if ev.Disconnected? {
      DisconnectionIsBooked(w, ev.byLocalHost);
    } else {
      GattCompletions(w, ev);
      CompletionIsBooked(w, Reporter(w.hub, ev));
      hide OnGatt, Book, Fails, Succeeds, Reporter;
    }
  }

  lemma TickIsBooked(w: World)
    requires w.hub.action.outstanding
    ensures Book(OnTick(w)) == Booked(Book(w), w.hub, Tick)
  {
    hide GattcCommandError, HeadCharged, HeadCompleted, Entered;
    var w0 := TickDelivered(w);
    if w.hub.delay.running {
      DelayIsBooked(w);
    } else if w.hub.action.inProgress {
      var a := w0.hub.action;
      assert OnTick(w) == WatchdogTick(w0);
      hide OnTick;
      CompletionIsBooked(w0.(hub := w0.hub.(action := a.(inProgress := false, opTime := 0))), a.cmdBleda);
    } else {
      assert OnTick(w) == IdleTick(w0);
    }
  }

  lemma DelayIsBooked(w: World)
    requires w.hub.delay.running
    ensures Book(OnTick(w)) == Book(w)
  {
    var w0 := TickDelivered(w);
    var w1 := w0.(hub := w0.hub.(delay := w.hub.delay.(countdown := w.hub.delay.countdown - 1)));
    assert OnTick(w) == DelayTick(w0);
    FireFrame(w1);
    hide Fire, OnTick;
  }

  /** Every event does to the commands exactly what the hub's state before it tells. */
  lemma EveryEventIsBooked(w: World, ev: Event)
    requires Inv(w) && CanHappen(w, ev)
    ensures Book(Step(w, ev)) == Booked(Book(w), w.hub, ev)
  {
    hide Inv, HeadCharged, HeadCompleted;
    TicksComeFromTimers(w);
    match ev
    case HandleRequest(r) =>
    case ScheduleReboot =>
    case WifiDone(_) =>
    case Tick => TickIsBooked(w);
    case _ => GattIsBooked(w, ev);
  }

  /** An event is of one kind. */
  lemma Kinds(h: Hub, ev: Event)
    ensures Fails(h, ev) ==> !Succeeds(ev) && !ev.HandleRequest? && !Starts(h, ev)
    ensures Succeeds(ev) ==> !ev.HandleRequest? && !Starts(h, ev)
    ensures ev.HandleRequest? ==> !Starts(h, ev)
  {
  }

  /** The queue after an event. */
  lemma QueueMoves(w: World, ev: Event)
    requires Inv(w) && CanHappen(w, ev)
    ensures var q := w.hub.queue;
            Step(w, ev).hub.queue ==
              if Fails(w.hub, ev) then AfterFailure(q)
              else if Succeeds(ev) then Succeeded(q)
              else if ev.HandleRequest? then Enqueued(q, Command(ev.req, MAX_CMD_RETRIES))
              else q
  {
    hide Step, Inv, CanHappen, Fails, Succeeds, Starts, IsStillPending;
    EveryEventIsBooked(w, ev);
    Kinds(w.hub, ev);
    assert Book(Step(w, ev)).queue == Step(w, ev).hub.queue;
  }

  /**
   * Suppression on entry keeps the queue free of repetitions; exactly one thing makes one, a failure
   * of a head that has an attempt left and is pending again behind it.
   */
  lemma RepeatsComeFromRetries(w: World, ev: Event)
    requires Inv(w) && CanHappen(w, ev) && NoRepeats(w.hub.queue)
    ensures var q := w.hub.queue;
            NoRepeats(Step(w, ev).hub.queue) <==>
              !(Fails(w.hub, ev) && q != [] && q[0].retries > 1 && StillPending(q[1..], q[0].req))
  {
    hide Inv, NoRepeats, Enqueued, AfterFailure, Fails, Step;
    QueueMoves(w, ev);
    var q := w.hub.queue;
    if ev.HandleRequest? {
      EntryKeepsNoRepeats(q, Command(ev.req, MAX_CMD_RETRIES));
    }
    if q != [] {
      RemovalKeepsNoRepeats(q);
      RotationRepeatsExactly(q);
    } else {
      assert AfterFailure(q) == q by { NothingFails(); }
    }
  }

  lemma NothingFails()
    ensures AfterFailure([]) == []
  {
  }

  // ------------------------------------------------- completions and operations

  /** A completion, good or bad, of the head of the queue. */
  predicate Completes(h: Hub, ev: Event) {
    h.queue != [] && (Succeeds(ev) || Fails(h, ev))
  }

  /** A completion that no operation asked for: the head has not been started. */
  predicate Stray(w: World, ev: Event) {
    Completes(w.hub, ev) && w.hist.inFlight == []
  }

  /** A start while the command started before has not been completed. */
  predicate Restarts(w: World, ev: Event) {
    Starts(w.hub, ev) && w.hist.inFlight != []
  }

  /**
   * Exactly which events take the head of the queue off or charge it although it is not in flight, and
   * what becomes of it.
   */
  lemma UnstartedHeadIsCompletedExactly(w: World, ev: Event)
    requires Inv(w) && CanHappen(w, ev) && w.hub.queue != [] && w.hist.inFlight == []
    ensures var q, w' := w.hub.queue, Step(w, ev);
            && (w'.hub.queue == q[1..] || w'.hub.queue == AfterFailure(q) <==> Succeeds(ev) || Fails(w.hub, ev))
            && (w'.hist.completed == w.hist.completed + multiset{q[0].req} <==> Succeeds(ev))
            && (w'.hist.exhausted == w.hist.exhausted + multiset{q[0].req} <==> Fails(w.hub, ev) && q[0].retries == 1)
  {
    hide Step, Fails, Succeeds, Starts, Conserved, InFlightAgrees, TimersAgree, CanHappen, IsStillPending, Reporter;
    var q := w.hub.queue;
    EveryEventIsBooked(w, ev);
    Kinds(w.hub, ev);
    assert Book(Step(w, ev)).queue == Step(w, ev).hub.queue;
    assert Book(Step(w, ev)).completed == Step(w, ev).hist.completed;
    assert Book(Step(w, ev)).exhausted == Step(w, ev).hist.exhausted;
    Attempts(q);
    NotMore(w.hist.completed, q[0].req);
    NotMore(w.hist.exhausted, q[0].req);
  }

  lemma NotMore(b: multiset<Request>, r: Request)
    ensures b != b + multiset{r}
  {
    assert (b + multiset{r})[r] == b[r] + 1;
  }

  lemma Attempts(q: seq<Command>)
    requires q != [] && QueueOk(q)
    ensures AfterFailure(q) != q && q[1..] != q && |AfterFailure(q)| <= |q| && q[0].retries >= 1
  {
    FailureCostsOneAttempt(q);
  }

  /** How often a predicate of state and event holds along a run. */
  datatype Tally = Tally(starts: nat, restarts: nat, completions: nat, strays: nat)

  function One(b: bool): (n: nat) {
    if b then 1 else 0
  }

  function TallyOf(w: World, evs: seq<Event>): (n: Tally)
    decreases |evs|
  {
    if evs == [] then Tally(0, 0, 0, 0)
    else
      var ev, rest := evs[0], TallyOf(Step(w, evs[0]), evs[1..]);
      Tally(One(Starts(w.hub, ev)) + rest.starts, One(Restarts(w, ev)) + rest.restarts,
            One(Completes(w.hub, ev)) + rest.completions, One(Stray(w, ev)) + rest.strays)
  }

  /** One event: a start puts a command in flight, a completion takes it out. */
  lemma FlightBalance(w: World, ev: Event)
    requires Inv(w) && CanHappen(w, ev)
    ensures |w.hist.inFlight| <= 1
    ensures |w.hist.inFlight| + One(Starts(w.hub, ev)) + One(Stray(w, ev)) ==
              |Step(w, ev).hist.inFlight| + One(Restarts(w, ev)) + One(Completes(w.hub, ev))
  {
    hide Step, Charged, Conserved, QueueOk, TimersAgree, CanHappen, Fails, Succeeds, IsStillPending;
    EveryEventIsBooked(w, ev);
    Kinds(w.hub, ev);
    assert Book(Step(w, ev)).inFlight == Step(w, ev).hist.inFlight;
  }

  /**
   * Over every run: operations started, and the one under way at the start, are either completed once,
   * given up for a new start, or still in flight; every other completion is a stray.
   */
  lemma {:induction false} OperationsBalance(w: World, evs: seq<Event>)
    requires Inv(w) && Possible(w, evs)
    ensures var n := TallyOf(w, evs);
            |w.hist.inFlight| + n.starts + n.strays == |Run(w, evs).hist.inFlight| + n.restarts + n.completions
    decreases |evs|
  {
    hide Inv, Step, Starts, Restarts, Completes, Stray, CanHappen;
    if evs != [] {
      FlightBalance(w, evs[0]);
      StepKeeps(w, evs[0]);
      OperationsBalance(Step(w, evs[0]), evs[1..]);
    }
  }

  // ------------------------------------------------- whom a report names

  /** A failure is reported exactly when it gives a command up. */
  lemma ReportsExactly(w: World, ev: Event)
    requires Inv(w) && CanHappen(w, ev)
    ensures Step(w, ev).hist.reported ==
              w.hist.reported + if Fails(w.hub, ev) && w.hub.queue != [] && w.hub.queue[0].retries <= 1
                                then [Reporter(w.hub, ev)] else []
  {
    hide Step, Inv, CanHappen, Fails, Succeeds, Starts, IsStillPending, Reporter;
    EveryEventIsBooked(w, ev);
    Kinds(w.hub, ev);
    assert Book(Step(w, ev)).reported == Step(w, ev).hist.reported;
  }

  /** Where the addresses a failure can report come from. */
  lemma AddressesComeFrom(w: World, ev: Event)
    requires Inv(w) && CanHappen(w, ev)
    ensures Step(w, ev).hub.action.cmdBleda ==
              if Starts(w.hub, ev) then w.hub.queue[0].req.bleda else w.hub.action.cmdBleda
    ensures Step(w, ev).hub.remoteBda == if ev.Connected? then ev.bda else w.hub.remoteBda
  {
    hide GattcCommandError, CommandSucceeded, Inv, IsStillPending;
    TicksComeFromTimers(w);
    match ev
    case Tick => TickAddresses(w);
    case HandleRequest(_) =>
    case ScheduleReboot =>
    case WifiDone(_) =>
    case _ => GattAddresses(w, ev);
  }

  lemma GattAddresses(w: World, ev: Event)
    requires !ev.HandleRequest? && !ev.ScheduleReboot? && !ev.WifiDone? && !ev.Tick?
    ensures OnGatt(w, ev).hub.action.cmdBleda == w.hub.action.cmdBleda
    ensures OnGatt(w, ev).hub.remoteBda == if ev.Connected? then ev.bda else w.hub.remoteBda
  {
    hide GattcCommandError, CommandSucceeded;
    if ev.Disconnected? {
      var a1 := w.hub.action.(getServer := false, inProgress := false);
      ErrorAddresses(w.(hub := w.hub.(action := a1)), a1.cmdBleda);
    } else {
      GattCompletions(w, ev);
      ErrorAddresses(w, Reporter(w.hub, ev));
      if Succeeds(ev) || Fails(w.hub, ev) {
        hide OnGatt, Fails, Succeeds, Reporter;
        assert !ev.Connected? by { ConnectedIsQuiet(w.hub, ev); }
      }
    }
  }

  lemma ConnectedIsQuiet(h: Hub, ev: Event)
    ensures ev.Connected? ==> !Succeeds(ev) && !Fails(h, ev)
  {
  }

  lemma ErrorAddresses(w: World, bleda: Address)
    ensures GattcCommandError(w, bleda).hub.action.cmdBleda == w.hub.action.cmdBleda
    ensures GattcCommandError(w, bleda).hub.remoteBda == w.hub.remoteBda
    ensures CommandSucceeded(w).hub.action.cmdBleda == w.hub.action.cmdBleda
    ensures CommandSucceeded(w).hub.remoteBda == w.hub.remoteBda
  {
  }

  lemma TickAddresses(w: World)
    requires w.hub.action.outstanding
    ensures Step(w, Tick).hub.action.cmdBleda ==
              if Starts(w.hub, Tick) then w.hub.queue[0].req.bleda else w.hub.action.cmdBleda
    ensures Step(w, Tick).hub.remoteBda == w.hub.remoteBda
  {
    hide GattcCommandError;
    var w0 := TickDelivered(w);
    if w.hub.delay.running {
      assert Step(w, Tick) == DelayTick(w0);
    } else if w.hub.action.inProgress {
      var a := w0.hub.action;
      assert Step(w, Tick) == WatchdogTick(w0);
      ErrorAddresses(w0.(hub := w0.hub.(action := a.(inProgress := false, opTime := 0))), a.cmdBleda);
    } else {
      assert Step(w, Tick) == IdleTick(w0);
    }
  }

  /**
   * A report names the valve of the command given up whenever that command was in flight and the
   * failure is the watchdog's, a failed connection or a lost one.
   */
  lemma ReportNamesTheCommandInFlight(w: World, ev: Event)
    requires Inv(w) && CanHappen(w, ev) && w.hist.inFlight != [] && (ev == Tick || ev.Opened? || ev.Disconnected?)
    requires Fails(w.hub, ev) && w.hub.queue[0].retries <= 1
    ensures Step(w, ev).hist.reported == w.hist.reported + [w.hist.inFlight[0].req.bleda]
    ensures Step(w, ev).hist.exhausted == w.hist.exhausted + multiset{w.hist.inFlight[0].req}
  {
    hide Step, CanHappen, Fails, Succeeds, Starts, IsStillPending, Conserved, QueueOk, TimersAgree;
    Kinds(w.hub, ev);
    EveryEventIsBooked(w, ev);
    assert Book(Step(w, ev)).reported == Step(w, ev).hist.reported;
    assert Book(Step(w, ev)).exhausted == Step(w, ev).hist.exhausted;
  }

  // ------------------------------------------------- witnesses from boot

  /** Ticks do nothing to an empty queue. */
  lemma {:induction false} TicksOnNothing(w: World, n: nat)
    requires Inv(w) && Possible(w, TickRun(n)) && w.hub.queue == []
    ensures Book(Run(w, TickRun(n))) == Book(w)
    decreases n
  {
    hide Inv, Step, Possible, Run, TickRun, CanHappen;
    if n == 0 {
      NoTicks(w);
    } else {
      OneTickThenRest(w, n);
      StepKeeps(w, Tick);
      EveryEventIsBooked(w, Tick);
      assert Book(w).queue == [] && Book(Step(w, Tick)).queue == Step(w, Tick).hub.queue;
      TicksOnNothing(Step(w, Tick), n - 1);
    }
  }

  /** One more event that is no tick. */
  lemma GoesOn(v: Value, a: Address, evs: seq<Event>, ev: Event)
    requires Possible(Boot(v, a), evs) && !Run(Boot(v, a), evs).hist.rebooted
    requires ev != Tick && (ev.HandleRequest? ==> ev.req.kind != Eco)
    ensures var w, w' := Run(Boot(v, a), evs), Run(Boot(v, a), evs + [ev]);
            && Possible(Boot(v, a), evs + [ev]) && !w'.hist.rebooted
            && Book(w') == Booked(Book(w), w.hub, ev) && w'.hub.action.cmdBleda == w.hub.action.cmdBleda
  {
    hide Inv, Step, Booked;
    var w := Run(Boot(v, a), evs);
    Reachable(v, a, evs);
    OneMore(Boot(v, a), evs, ev);
    EveryEventIsBooked(w, ev);
    AddressesComeFrom(w, ev);
    OnlyTicksReboot(w, ev);
  }

  /** The first command is under way. */
  lemma FirstIsBooked(v: Value, a: Address, r: Request)
    requires r.kind != Eco
    ensures var w, c := Run(Boot(v, a), FirstCommand(r)), Command(r, MAX_CMD_RETRIES);
            && Possible(Boot(v, a), FirstCommand(r)) && !w.hist.rebooted && w.hub.action.cmdBleda == r.bleda
            && Book(w) == Ledger([c], multiset{r}, multiset{}, multiset{}, [c], [r.bleda], [])
  {
    hide Step, Fails, Starts, GattcCommandError;
    var w0, c := Boot(v, a), Command(r, MAX_CMD_RETRIES);
    FirstCommandIsUnwatched(v, a, r);
    RunsCompose(w0, TickRun(5) + [HandleRequest(r)], [Tick]);
    RunsCompose(w0, TickRun(5), [HandleRequest(r)]);
    var w1 := Run(w0, TickRun(5));
    var w2 := Step(w1, HandleRequest(r));
    OneStep(w1, HandleRequest(r));
    OneStep(w2, Tick);
    Reachable(v, a, TickRun(5));
    TicksOnNothing(w0, 5);
    EveryEventIsBooked(w1, HandleRequest(r));
    assert Book(w2) == Entered(Book(w0), r);
    assert Book(w2) == Ledger([c], multiset{r}, multiset{}, multiset{}, [], [], []);
    StepKeeps(w1, HandleRequest(r));
    EveryEventIsBooked(w2, Tick);
    AddressesComeFrom(w2, Tick);
  }

  lemma OneStep(w: World, ev: Event)
    ensures Run(w, [ev]) == Step(w, ev) && (Possible(w, [ev]) <==> CanHappen(w, ev))
  {
    assert [ev][1..] == [];
    assert Run(Step(w, ev), []) == Step(w, ev) && Possible(Step(w, ev), []);
  }

  /** The first command is completed while a second one waits. */
  function SecondWaits(r: Request, r2: Request): (evs: seq<Event>) {
    FirstCommand(r) + [HandleRequest(r2)] + [Unregistered]
  }

  lemma SecondIsNotStarted(v: Value, a: Address, r: Request, r2: Request)
    requires r.kind != Eco && r2.kind != Eco && r2 != r
    ensures var w := Run(Boot(v, a), SecondWaits(r, r2));
            && Possible(Boot(v, a), SecondWaits(r, r2)) && !w.hist.rebooted && w.hub.action.cmdBleda == r.bleda
            && Book(w) == Ledger([Command(r2, 3)], multiset{r, r2}, multiset{r}, multiset{}, [], [r.bleda], [])
  {
    hide Run, Possible, FirstCommand;
    FirstIsBooked(v, a, r);
    GoesOn(v, a, FirstCommand(r), HandleRequest(r2));
    assert !StillPending([Command(r, MAX_CMD_RETRIES)], r2);
    GoesOn(v, a, FirstCommand(r) + [HandleRequest(r2)], Unregistered);
  }

  /** A second notice of the same completion completes a command that was never sent. */
  lemma UnsentCommandIsCompleted(v: Value, a: Address, r: Request, r2: Request)
    requires r.kind != Eco && r2.kind != Eco && r2 != r
    ensures var evs := SecondWaits(r, r2) + [Unregistered];
            var w := Run(Boot(v, a), evs);
            && Possible(Boot(v, a), evs) && w.hub.queue == [] && w.hist.completed == multiset{r, r2}
            && w.hist.dialled == [r.bleda]
  {
    hide Run, Possible, SecondWaits;
    SecondIsNotStarted(v, a, r, r2);
    GoesOn(v, a, SecondWaits(r, r2), Unregistered);
    var w := Run(Boot(v, a), SecondWaits(r, r2) + [Unregistered]);
    assert Book(w).queue == w.hub.queue && Book(w).completed == w.hist.completed && Book(w).dialled == w.hist.dialled;
  }

  /** A lost connection, whatever it was for. */
  lemma ConnectionIsLost(v: Value, a: Address, evs: seq<Event>)
    requires Possible(Boot(v, a), evs) && !Run(Boot(v, a), evs).hist.rebooted
    ensures var w, w' := Run(Boot(v, a), evs), Run(Boot(v, a), evs + [Disconnected(false)]);
            && Possible(Boot(v, a), evs + [Disconnected(false)]) && !w'.hist.rebooted
            && Book(w') == HeadCharged(Book(w), w.hub.action.cmdBleda)
            && w'.hub.action.cmdBleda == w.hub.action.cmdBleda
  {
    hide Run, Possible, HeadCharged, HeadCompleted, Entered;
    GoesOn(v, a, evs, Disconnected(false));
  }

  /** What three charges make of a fresh command that waits alone. */
  lemma ThreeCharges(l: Ledger, r: Request, a: Address)
    requires l.queue == [Command(r, 3)]
    ensures var l1 := HeadCharged(l, a);
            var l3 := HeadCharged(HeadCharged(l1, a), a);
            && l1.queue == [Command(r, 2)]
            && l3.queue == [] && l3.exhausted == l.exhausted + multiset{r} && l3.reported == l.reported + [a]
            && l3.dialled == l.dialled
  {
  }

  /** A connection that is lost afterwards charges it an attempt; the third gives it up, in another valve's name. */
  lemma UnsentCommandIsGivenUp(v: Value, a: Address, r: Request, r2: Request)
    requires r.kind != Eco && r2.kind != Eco && r2 != r
    ensures var lost := Disconnected(false);
            var evs1 := SecondWaits(r, r2) + [lost];
            var evs3 := evs1 + [lost] + [lost];
            var w1, w3 := Run(Boot(v, a), evs1), Run(Boot(v, a), evs3);
            && Possible(Boot(v, a), evs3) && w1.hub.queue == [Command(r2, 2)]
            && w3.hub.queue == [] && w3.hist.exhausted == multiset{r2}
            && w3.hist.dialled == [r.bleda] && w3.hist.reported == [r.bleda]
  {
    hide Run, Possible, SecondWaits, HeadCharged;
    var lost := Disconnected(false);
    var evs1 := SecondWaits(r, r2) + [lost];
    SecondIsNotStarted(v, a, r, r2);
    ConnectionIsLost(v, a, SecondWaits(r, r2));
    ConnectionIsLost(v, a, evs1);
    ConnectionIsLost(v, a, evs1 + [lost]);
    ThreeCharges(Book(Run(Boot(v, a), SecondWaits(r, r2))), r2, r.bleda);
    BookEntries(Run(Boot(v, a), evs1));
    BookEntries(Run(Boot(v, a), evs1 + [lost] + [lost]));
  }

  lemma BookEntries(w: World)
    ensures var l := Book(w);
            && l.queue == w.hub.queue && l.exhausted == w.hist.exhausted && l.completed == w.hist.completed
            && l.dialled == w.hist.dialled && l.reported == w.hist.reported
  {
  }
}
