// components/mongoose/src/timer.c: the list of periodic timers. Milliseconds are C's
// unsigned long, 32 bits on the hub, and wrap around.
module Timers {
  import opened Bytes

  /** C's unsigned addition. */
  function Wrap(x: nat): (w: uint32) {
    x % 0x1_0000_0000
  }

  // --------------------------------------------------------- one timer

  /** The values of a struct mg_timer; `call` stands for the function and its argument. */
  datatype TimerValue = TimerValue(call: nat, period: uint32, repeats: bool, expire: uint32)

  /** When the timer is due, seen from a poll at `now`: one that is not set yet is set now. */
  function Due(expire: uint32, now: uint32, period: uint32): (e: uint32) {
    if expire == 0 then Wrap(now + period) else expire
  }

  function Fires(expire: uint32, now: uint32, period: uint32): (b: bool) {
    Due(expire, now, period) <= now
  }

  /** The expiration time behind the poll. */
  function Polled(expire: uint32, now: uint32, period: uint32): (e: uint32) {
    var due := Due(expire, now, period);
    if due > now then due
    else if now - due > period then Wrap(now + period)
    else Wrap(due + period)
  }

  /** The next expiration time as it would be without the cut to 32 bits. */
  function Target(expire: uint32, now: uint32, period: uint32): (n: nat) {
    if expire == 0 then now + period
    else if expire > now then expire
    else if now - expire > period then now + period
    else expire + period
  }

  /**
   * One poll leaves a timer no earlier than the clock and no more than a period
   * ahead of it, exactly when its next expiration time fits 32 bits.
   */
  lemma NoDrift(expire: uint32, now: uint32, period: uint32)
    requires period > 0 && (expire == 0 ==> 2 * period < TWO_32) && expire <= now + period
    ensures now <= Polled(expire, now, period) <= now + period <==> Target(expire, now, period) < TWO_32
    ensures Target(expire, now, period) < TWO_32 ==> Polled(expire, now, period) == Target(expire, now, period)
  {
    hide Target, Polled;
    if expire == 0 { NoDriftOfNew(now, period); } else { NoDriftOfRunning(expire, now, period); }
  }

  lemma NoDriftOfNew(now: uint32, period: uint32)
    requires 0 < period && 2 * period < TWO_32
    ensures now <= Polled(0, now, period) <= now + period <==> Target(0, now, period) < TWO_32
    ensures Target(0, now, period) < TWO_32 ==> Polled(0, now, period) == Target(0, now, period)
  {
    CutOnce(now + period);
  }

  lemma NoDriftOfRunning(expire: uint32, now: uint32, period: uint32)
    requires period > 0 && 0 < expire <= now + period
    ensures now <= Polled(expire, now, period) <= now + period <==> Target(expire, now, period) < TWO_32
    ensures Target(expire, now, period) < TWO_32 ==> Polled(expire, now, period) == Target(expire, now, period)
  {
    CutOnce(now + period);
    CutOnce(expire + period);
  }

  lemma CutOnce(x: nat)
    requires x < 2 * TWO_32
    ensures Wrap(x) == if x < TWO_32 then x else x - TWO_32
  {
  }

  /** Setting a timer from now reaches forward exactly when now + period does not wrap. */
  lemma SetsAheadExactlyBeforeWrap(now: uint32, period: uint32)
    requires period > 0
    ensures now < Due(0, now, period) <==> now + period < TWO_32
  {
  }

  /** A timer's state after polls at `times`: its expiration time and how often it has fired. */
  datatype Course = Course(expire: uint32, fired: nat)

  /** The course of a timer that starts with the expiration time `e`. */
  function AfterFrom(e: uint32, times: seq<uint32>, period: uint32): (c: Course) {
    if |times| == 0 then Course(e, 0)
    else Next(AfterFrom(e, times[..|times| - 1], period), times[|times| - 1], period)
  }

  function Next(c: Course, now: uint32, period: uint32): (c': Course) {
    Course(Polled(c.expire, now, period), c.fired + if Fires(c.expire, now, period) then 1 else 0)
  }

  /** The course of a timer that has just been started. */
  function After(times: seq<uint32>, period: uint32): (c: Course) {
    AfterFrom(0, times, period)
  }

  predicate Forward(times: seq<uint32>) {
    forall k :: 0 < k < |times| ==> times[k - 1] <= times[k]
  }

  /** There are at most `gap` milliseconds between two polls. */
  predicate Steady(times: seq<uint32>, gap: uint32) {
    Forward(times) && forall k :: 0 < k < |times| ==> times[k] <= times[k - 1] + gap
  }

  /** However the polls come, as long as time goes forward the timer stays within a period of the clock. */
  lemma {:induction false} StaysCloseToTheClock(times: seq<uint32>, period: uint32)
    requires |times| > 0 && Forward(times) && period > 0 && times[|times| - 1] + period < TWO_32
    ensures times[|times| - 1] <= After(times, period).expire <= times[|times| - 1] + period
  {
    hide Polled, Fires, Target;
    var before, now := times[..|times| - 1], times[|times| - 1];
    var e := After(before, period).expire;
    if |before| > 0 {
      assert before[|before| - 1] <= now;
      StaysCloseToTheClock(before, period);
    }
    StaysCloseOnce(e, now, period);
  }

  lemma StaysCloseOnce(e: uint32, now: uint32, period: uint32)
    requires period > 0 && now + period < TWO_32 && e <= now + period
    ensures now <= Polled(e, now, period) <= now + period
  {
  }

  /** One poll of a timer that is due at `due`, its last poll having been at `last`. */
  lemma OnePeriodOn(due: uint32, last: uint32, now: uint32, period: uint32)
    requires 0 < period && last <= now <= last + period && last < due
    ensures Fires(due, now, period) <==> due <= now
    ensures now < due ==> Polled(due, now, period) == due
    ensures due <= now && due + period < TWO_32 ==> Polled(due, now, period) == due + period
    ensures now < due + period
  {
  }

  lemma Quotient(x: nat, p: nat)
    requires p > 0
    ensures x / p * p <= x < x / p * p + p
  {
  }

  /** How often a timer first polled at `t0` should have fired by now, and when it should fire next. */
  function Firings(t0: uint32, now: uint32, period: uint32): (m: nat)
    requires period > 0
  {
    if now < t0 then 0 else (now - t0) / period
  }

  function NextFiring(t0: uint32, now: uint32, period: uint32): (n: nat)
    requires period > 0
  {
    t0 + Firings(t0, now, period) * period + period
  }

  /** From one poll to the next at most one firing falls due. */
  lemma FiringsGoOn(t0: uint32, last: uint32, now: uint32, period: uint32)
    requires period > 0 && t0 <= last <= now <= last + period
    ensures last < NextFiring(t0, last, period) <= NextFiring(t0, now, period)
    ensures if now < NextFiring(t0, last, period)
            then Firings(t0, now, period) == Firings(t0, last, period)
                 && NextFiring(t0, now, period) == NextFiring(t0, last, period)
            else Firings(t0, now, period) == Firings(t0, last, period) + 1
                 && NextFiring(t0, now, period) == NextFiring(t0, last, period) + period
  {
    var m := Firings(t0, last, period);
    Quotient(last - t0, period);
    if now < NextFiring(t0, last, period) {
      QuotientIs(now - t0, period, m);
    } else {
      assert (m + 1) * period == m * period + period;
      QuotientIs(now - t0, period, m + 1);
    }
  }

  /**
   * Polled at least once a period, a repeating timer keeps the phase of its first poll: with m whole
   * periods passed since then it has fired m times and is due next m + 1 periods after that poll, as
   * long as this time fits 32 bits. (Where it does not, no stored time can be equal to it.)
   */
  lemma {:induction false} PhaseIsKept(times: seq<uint32>, period: uint32)
    requires |times| > 0 && period > 0 && Steady(times, period)
    ensures var t0, now, c := times[0], times[|times| - 1], After(times, period);
            c.fired == Firings(t0, now, period) && c.expire == NextFiring(t0, now, period)
            <==> NextFiring(t0, now, period) < TWO_32
  {
    ForwardFromTheFirst(times);
    if NextFiring(times[0], times[|times| - 1], period) < TWO_32 {
      PhaseFromTheFirst(times, period);
    }
  }

  lemma {:induction false} PhaseFromTheFirst(times: seq<uint32>, period: uint32)
    requires |times| > 0 && period > 0 && Steady(times, period) && times[0] <= times[|times| - 1]
    requires NextFiring(times[0], times[|times| - 1], period) < TWO_32
    ensures var t0, now, c := times[0], times[|times| - 1], After(times, period);
            c.fired == Firings(t0, now, period) && c.expire == NextFiring(t0, now, period)
  {
    hide Polled, Fires, Firings, NextFiring;
    var before, t0, now := times[..|times| - 1], times[0], times[|times| - 1];
    if |before| == 0 {
      assert before == [] && After(before, period) == Course(0, 0) && now == t0;
      FirstPoll(t0, period);
    } else {
      var last := before[|before| - 1];
      ForwardFromTheFirst(before);
      FiringsGoOn(t0, last, now, period);
      PhaseFromTheFirst(before, period);
      OnePeriodOn(After(before, period).expire, last, now, period);
    }
  }

  lemma FirstPoll(now: uint32, period: uint32)
    requires period > 0 && NextFiring(now, now, period) < TWO_32
    ensures Next(Course(0, 0), now, period) == Course(NextFiring(now, now, period), Firings(now, now, period))
  {
  }

  /**
   * A timer whose next expiration time does not fit 32 bits is set into the past,
   * be it new or running: it fires in every poll from then on until the clock has wrapped.
   */
  lemma {:induction false} FiresInEveryPollBeforeTheWrap(e: uint32, times: seq<uint32>, period: uint32)
    requires |times| > 0 && Forward(times) && 2 * period < TWO_32 && Target(e, times[0], period) >= TWO_32
    ensures AfterFrom(e, times, period).fired == |times|
    ensures AfterFrom(e, times, period).expire <= times[|times| - 1] + period - TWO_32
  {
    hide Polled, Fires, Target;
    var before, now := times[..|times| - 1], times[|times| - 1];
    if |before| == 0 {
      FiresBeyondTheWrap(e, now, period);
    } else {
      assert before[|before| - 1] <= now;
      FiresInEveryPollBeforeTheWrap(e, before, period);
      FiresOverdue(AfterFrom(e, before, period).expire, before[|before| - 1], now, period);
    }
  }

  lemma FiresBeyondTheWrap(e: uint32, now: uint32, period: uint32)
    requires 2 * period < TWO_32 && Target(e, now, period) >= TWO_32
    ensures Fires(e, now, period) && Polled(e, now, period) <= now + period - TWO_32
  {
    CutOnce(now + period);
    if e > 0 { CutOnce(e + period); }
  }

  lemma FiresOverdue(e: uint32, last: uint32, now: uint32, period: uint32)
    requires 2 * period < TWO_32 && last <= now && e <= last + period - TWO_32
    ensures Fires(e, now, period) && Polled(e, now, period) <= now + period - TWO_32
  {
    CutOnce(now + period);
  }

  lemma {:induction false} ForwardFromTheFirst(times: seq<uint32>)
    requires |times| > 0 && Forward(times)
    ensures times[0] <= times[|times| - 1]
  {
    if |times| > 1 {
      ForwardFromTheFirst(times[..|times| - 1]);
    }
  }

  // ----------------------------------------------------------- the list

  function CallOf(t: TimerValue, now: uint32): (calls: seq<nat>) {
    if Fires(t.expire, now, t.period) then [t.call] else []
  }

  /** A timer that fires and does not repeat is unlinked. */
  function KeptOf(t: TimerValue, now: uint32): (ts: seq<TimerValue>) {
    if Fires(t.expire, now, t.period) && !t.repeats then [] else [t.(expire := Polled(t.expire, now, t.period))]
  }

  /** The callbacks of one poll, in order. */
  function Calls(ts: seq<TimerValue>, now: uint32): (calls: seq<nat>) {
    if |ts| == 0 then [] else Calls(ts[..|ts| - 1], now) + CallOf(ts[|ts| - 1], now)
  }

  /** The list after a poll. */
  function Kept(ts: seq<TimerValue>, now: uint32): (ts': seq<TimerValue>) {
    if |ts| == 0 then [] else Kept(ts[..|ts| - 1], now) + KeptOf(ts[|ts| - 1], now)
  }

  /** When the clock goes back every timer is to be set anew. */
  function Reset(ts: seq<TimerValue>, back: bool): (ts': seq<TimerValue>)
    ensures |ts'| == |ts|
  {
    if !back then ts else seq(|ts|, i requires 0 <= i < |ts| => ts[i].(expire := 0))
  }

  // ------------------------------------------------------- runs of the list

  datatype Operation = Init(t: TimerValue) | Free(k: nat) | Poll(now: uint32)

  /** The list, the last poll's time, and every callback from a poll so far. */
  datatype Timers = Timers(list: seq<TimerValue>, oldnow: uint32, calls: seq<nat>)

  function Step(w: Timers, op: Operation): (w': Timers) {
    match op
    case Init(t) => w.(list := [t.(expire := 0)] + w.list)
    case Free(k) => if k < |w.list| then w.(list := w.list[..k] + w.list[k + 1..]) else w
    case Poll(now) =>
      var ts := Reset(w.list, w.oldnow > now);
      Timers(Kept(ts, now), now, w.calls + Calls(ts, now))
  }

  function Run(ops: seq<Operation>): (w: Timers) {
    if |ops| == 0 then Timers([], 0, []) else Step(Run(ops[..|ops| - 1]), ops[|ops| - 1])
  }

  /** How many timers with this callback are listed. */
  function Listed(ts: seq<TimerValue>, call: nat): (n: nat) {
    if |ts| == 0 then 0 else Listed(ts[..|ts| - 1], call) + if ts[|ts| - 1].call == call then 1 else 0
  }

  function Count(calls: seq<nat>, call: nat): (n: nat) {
    if |calls| == 0 then 0 else Count(calls[..|calls| - 1], call) + if calls[|calls| - 1] == call then 1 else 0
  }

  lemma {:induction false} ListedSplits(a: seq<TimerValue>, b: seq<TimerValue>, call: nat)
    ensures Listed(a + b, call) == Listed(a, call) + Listed(b, call)
  {
    if |b| == 0 {
      assert a + b == a;
    } else {
      ListedSplits(a, b[..|b| - 1], call);
      assert (a + b)[..|a + b| - 1] == a + b[..|b| - 1];
    }
  }

  lemma {:induction false} CountSplits(a: seq<nat>, b: seq<nat>, call: nat)
    ensures Count(a + b, call) == Count(a, call) + Count(b, call)
  {
    if |b| == 0 {
      assert a + b == a;
    } else {
      CountSplits(a, b[..|b| - 1], call);
      assert (a + b)[..|a + b| - 1] == a + b[..|b| - 1];
    }
  }

  predicate OneShots(ts: seq<TimerValue>, call: nat) {
    forall i :: 0 <= i < |ts| && ts[i].call == call ==> !ts[i].repeats
  }

  /** In one poll a one-shot timer is called or stays, never both and never neither. */
  lemma {:induction false} OneShotCalledOrKept(ts: seq<TimerValue>, now: uint32, call: nat)
    requires OneShots(ts, call)
    ensures Count(Calls(ts, now), call) + Listed(Kept(ts, now), call) == Listed(ts, call)
    ensures OneShots(Kept(ts, now), call)
  {
    if |ts| > 0 {
      var most, t := ts[..|ts| - 1], ts[|ts| - 1];
      hide Fires, Polled;
      OneShotCalledOrKept(most, now, call);
      CountSplits(Calls(most, now), CallOf(t, now), call);
      ListedSplits(Kept(most, now), KeptOf(t, now), call);
      OneOfOne(t, now, call);
    }
  }

  lemma OneOfOne(t: TimerValue, now: uint32, call: nat)
    requires t.call == call ==> !t.repeats
    ensures Count(CallOf(t, now), call) + Listed(KeptOf(t, now), call) == if t.call == call then 1 else 0
  {
    hide Fires, Polled;
    assert Count([], call) == 0 && Listed([], call) == 0;
    assert Count([t.call], call) == (if t.call == call then 1 else 0) by { assert [t.call][..0] == []; }
    var t' := t.(expire := Polled(t.expire, now, t.period));
    assert Listed([t'], call) == (if t.call == call then 1 else 0) by { assert [t'][..0] == []; }
  }

  /** Starts of a timer with this callback. */
  function StartedBy(op: Operation, call: nat): (n: nat) {
    if op.Init? && op.t.call == call then 1 else 0
  }

  function Started(ops: seq<Operation>, call: nat): (n: nat) {
    if |ops| == 0 then 0 else Started(ops[..|ops| - 1], call) + StartedBy(ops[|ops| - 1], call)
  }

  /** Unlinkings from outside of a timer with this callback. */
  function FreedBy(w: Timers, op: Operation, call: nat): (n: nat) {
    if op.Free? && op.k < |w.list| && w.list[op.k].call == call then 1 else 0
  }

  function Freed(ops: seq<Operation>, call: nat): (n: nat) {
    if |ops| == 0 then 0 else Freed(ops[..|ops| - 1], call) + FreedBy(Run(ops[..|ops| - 1]), ops[|ops| - 1], call)
  }

  lemma {:induction false} ResetLists(ts: seq<TimerValue>, back: bool, call: nat)
    ensures Listed(Reset(ts, back), call) == Listed(ts, call)
    ensures OneShots(ts, call) ==> OneShots(Reset(ts, back), call)
  {
    if |ts| > 0 {
      ResetLists(ts[..|ts| - 1], back, call);
      assert Reset(ts, back)[..|ts| - 1] == Reset(ts[..|ts| - 1], back);
    }
  }

  lemma FreeLists(ts: seq<TimerValue>, k: nat, call: nat)
    requires k < |ts|
    ensures Listed(ts[..k] + ts[k + 1..], call) + (if ts[k].call == call then 1 else 0) == Listed(ts, call)
  {
    assert ts == (ts[..k] + [ts[k]]) + ts[k + 1..];
    ListedSplits(ts[..k] + [ts[k]], ts[k + 1..], call);
    ListedSplits(ts[..k], [ts[k]], call);
    ListedSplits(ts[..k], ts[k + 1..], call);
    assert Listed([ts[k]], call) == (if ts[k].call == call then 1 else 0) by { assert [ts[k]][..0] == []; }
  }

  lemma OneShotsStep(w: Timers, op: Operation, call: nat)
    requires OneShots(w.list, call) && (op.Init? && op.t.call == call ==> !op.t.repeats)
    ensures OneShots(Step(w, op).list, call)
    ensures Count(w.calls, call) + Listed(w.list, call) + StartedBy(op, call)
            == Count(Step(w, op).calls, call) + Listed(Step(w, op).list, call) + FreedBy(w, op, call)
  {
    hide Kept, Calls, Reset, Listed, Count;
    match op {
      case Init(t) =>
        var t' := t.(expire := 0);
        ListedSplits([t'], w.list, call);
        OneListed(t', call);
      case Free(k) =>
        if k < |w.list| { FreeLists(w.list, k, call); }
      case Poll(now) =>
        var ts := Reset(w.list, w.oldnow > now);
        ResetLists(w.list, w.oldnow > now, call);
        OneShotCalledOrKept(ts, now, call);
        CountSplits(w.calls, Calls(ts, now), call);
    }
  }

  /**
   * In every run a one-shot timer's callback comes exactly once for each start, unless the timer still
   * waits or was freed.
   */
  lemma {:induction false} OneShotsFireOnce(ops: seq<Operation>, call: nat)
    requires forall i :: 0 <= i < |ops| && ops[i].Init? && ops[i].t.call == call ==> !ops[i].t.repeats
    ensures Started(ops, call) == Count(Run(ops).calls, call) + Listed(Run(ops).list, call) + Freed(ops, call)
    ensures OneShots(Run(ops).list, call)
  {
    if |ops| > 0 {
      hide Step, OneShots, Listed, Count;
      OneShotsFireOnce(ops[..|ops| - 1], call);
      OneShotsStep(Run(ops[..|ops| - 1]), ops[|ops| - 1], call);
    }
  }

  lemma OneListed(t: TimerValue, call: nat)
    ensures Listed([t], call) == if t.call == call then 1 else 0
  {
    assert [t][..0] == [];
  }

  /** The timers with this callback. */
  function Of(ts: seq<TimerValue>, call: nat): (ts': seq<TimerValue>) {
    if |ts| == 0 then [] else Of(ts[..|ts| - 1], call) + if ts[|ts| - 1].call == call then [ts[|ts| - 1]] else []
  }

  lemma {:induction false} OfSplits(a: seq<TimerValue>, b: seq<TimerValue>, call: nat)
    ensures Of(a + b, call) == Of(a, call) + Of(b, call)
  {
    if |b| == 0 {
      assert a + b == a;
    } else {
      OfSplits(a, b[..|b| - 1], call);
      assert (a + b)[..|a + b| - 1] == a + b[..|b| - 1];
    }
  }

  lemma OfOne(t: TimerValue, call: nat)
    ensures Of([t], call) == if t.call == call then [t] else []
  {
    assert [t][..0] == [];
  }

  lemma CountOne(c: nat, call: nat)
    ensures Count([], call) == 0 && Count([c], call) == if c == call then 1 else 0
  {
    assert [c][..0] == [];
  }

  /** A poll treats a timer as if it were alone on the list. */
  lemma {:induction false} PolledAlone(ts: seq<TimerValue>, t: TimerValue, now: uint32)
    requires t.repeats
    requires Of(ts, t.call) == [t] || Of(ts, t.call) == []
    ensures Of(Kept(ts, now), t.call) == if Of(ts, t.call) == [] then []
            else [t.(expire := Polled(t.expire, now, t.period))]
    ensures Count(Calls(ts, now), t.call) == if Of(ts, t.call) != [] && Fires(t.expire, now, t.period) then 1 else 0
  {
    if |ts| > 0 {
      var most, last := ts[..|ts| - 1], ts[|ts| - 1];
      hide Fires, Polled;
      assert Of(ts, t.call) == Of(most, t.call) + if last.call == t.call then [last] else [];
      if last.call == t.call {
        assert |Of(most, t.call)| == 0 && last == Of(ts, t.call)[0] == t;
      }
      PolledAlone(most, t, now);
      OfSplits(Kept(most, now), KeptOf(last, now), t.call);
      CountSplits(Calls(most, now), CallOf(last, now), t.call);
      OfOne(last.(expire := Polled(last.expire, now, last.period)), t.call);
      CountOne(last.call, t.call);
    }
  }

  /** The list after polls at `times`. */
  function PolledAt(ts: seq<TimerValue>, times: seq<uint32>): (w: Timers) {
    if |times| == 0 then Timers(ts, 0, []) else Step(PolledAt(ts, times[..|times| - 1]), Poll(times[|times| - 1]))
  }

  /** One poll with time going forward. */
  lemma RepeatingTimerIsPolled(w: Timers, t: TimerValue, now: uint32)
    requires t.repeats && Of(w.list, t.call) == [t] && w.oldnow <= now
    ensures var w' := Step(w, Poll(now));
            && Of(w'.list, t.call) == [t.(expire := Polled(t.expire, now, t.period))] && w'.oldnow == now
            && Count(w'.calls, t.call) == Count(w.calls, t.call) + if Fires(t.expire, now, t.period) then 1 else 0
  {
    hide Fires, Polled, Kept, Calls, Of, Count;
    PolledAlone(w.list, t, now);
    CountSplits(w.calls, Calls(w.list, now), t.call);
  }

  /** As long as time goes forward, a repeating timer runs its own course whatever else is on the list. */
  lemma {:induction false} RepeatingTimersRunTheirCourse(ts: seq<TimerValue>, t: TimerValue, times: seq<uint32>)
    requires t.repeats && Of(ts, t.call) == [t] && Forward(times)
    ensures var w, c := PolledAt(ts, times), AfterFrom(t.expire, times, t.period);
            && Of(w.list, t.call) == [t.(expire := c.expire)] && Count(w.calls, t.call) == c.fired
            && w.oldnow == if |times| == 0 then 0 else times[|times| - 1]
  {
    if |times| > 0 {
      var most, now := times[..|times| - 1], times[|times| - 1];
      RepeatingTimersRunTheirCourse(ts, t, most);
      hide Fires, Polled, Step, Of, Count;
      var w := PolledAt(ts, most);
      assert w.oldnow <= now;
      RepeatingTimerIsPolled(w, t.(expire := AfterFrom(t.expire, most, t.period).expire), now);
    } else {
      assert Count([], t.call) == 0;
    }
  }

  /** The next expiration time of every timer lies within 32 bits. */
  predicate FitAhead(ts: seq<TimerValue>, now: uint32) {
    forall i :: 0 <= i < |ts| ==> 0 < ts[i].period < TWO_32 - now
  }

  predicate SetFrom(ts: seq<TimerValue>, was: seq<TimerValue>, now: nat) {
    |ts| == |was| && forall i :: 0 <= i < |ts| ==>
      ts[i].call == was[i].call && ts[i].period == was[i].period && ts[i].repeats == was[i].repeats
      && ts[i].expire == now + was[i].period
  }

  /** A timer that is not set, in a poll. */
  lemma UnsetIsSet(t: TimerValue, now: uint32)
    requires t.expire == 0
    ensures CallOf(t, now) == [] <==> 0 < t.period < TWO_32 - now
    ensures 0 < t.period < TWO_32 - now ==> KeptOf(t, now) == [t.(expire := now + t.period)]
  {
    CutOnce(now + t.period);
  }

  lemma FitsToTheLast(ts: seq<TimerValue>, now: uint32)
    requires |ts| > 0
    ensures FitAhead(ts, now) <==> FitAhead(ts[..|ts| - 1], now) && 0 < ts[|ts| - 1].period < TWO_32 - now
  {
    assert forall i :: 0 <= i < |ts| - 1 ==> ts[..|ts| - 1][i] == ts[i];
  }

  lemma SetToTheLast(kept: seq<TimerValue>, ts: seq<TimerValue>, last: TimerValue, now: uint32)
    requires |ts| > 0 && SetFrom(kept, ts[..|ts| - 1], now)
    requires var t := ts[|ts| - 1]; now + t.period < TWO_32 && last == t.(expire := now + t.period)
    ensures SetFrom(kept + [last], ts, now)
  {
  }

  lemma {:induction false} UnsetAreSet(ts: seq<TimerValue>, now: uint32)
    requires forall i :: 0 <= i < |ts| ==> ts[i].expire == 0
    ensures Calls(ts, now) == [] <==> FitAhead(ts, now)
    ensures FitAhead(ts, now) ==> SetFrom(Kept(ts, now), ts, now)
  {
    if |ts| > 0 {
      var most, t := ts[..|ts| - 1], ts[|ts| - 1];
      UnsetAreSet(most, now);
      UnsetIsSet(t, now);
      hide Calls, Kept, CallOf, KeptOf, FitAhead, SetFrom;
      OneMore(ts, now);
      FitsToTheLast(ts, now);
      if FitAhead(ts, now) {
        SetToTheLast(Kept(most, now), ts, t.(expire := now + t.period), now);
      }
    }
  }

  lemma OneMore(ts: seq<TimerValue>, now: uint32)
    requires |ts| > 0
    ensures Calls(ts, now) == Calls(ts[..|ts| - 1], now) + CallOf(ts[|ts| - 1], now)
    ensures Kept(ts, now) == Kept(ts[..|ts| - 1], now) + KeptOf(ts[|ts| - 1], now)
  {
  }

  /**
   * When the clock has gone back every timer, whenever it was due, is put off to one period from now. No
   * callback comes exactly when all of these times fit 32 bits.
   */
  lemma ClockBackSetsAnew(w: Timers, now: uint32)
    requires now < w.oldnow
    ensures Step(w, Poll(now)).calls == w.calls <==> FitAhead(w.list, now)
    ensures FitAhead(w.list, now) ==> SetFrom(Step(w, Poll(now)).list, w.list, now)
  {
    hide Calls, Kept;
    UnsetAreSet(Reset(w.list, true), now);
    assert FitAhead(w.list, now) <==> FitAhead(Reset(w.list, true), now) by {
      forall i | 0 <= i < |w.list| ensures Reset(w.list, true)[i].period == w.list[i].period { }
    }
  }

  // ------------------------------------------------------------ the heap list

  /** struct mg_timer */
  class TimerNode {
    const call: nat
    const period: uint32
    const repeats: bool
    const runNow: bool
    var expire: uint32
    var next: TimerNode?

    constructor (call: nat, period: uint32, repeats: bool, runNow: bool)
      ensures this.call == call && this.period == period && this.repeats == repeats && this.runNow == runNow
    {
      this.call, this.period, this.repeats, this.runNow := call, period, repeats, runNow;
      expire, next := 0, null;
    }

    ghost function Value(): (t: TimerValue)
      reads this
    {
      TimerValue(call, period, repeats, expire)
    }
  }

  ghost function Values(nodes: seq<TimerNode>): (ts: seq<TimerValue>)
    reads nodes
    ensures |ts| == |nodes| && forall i :: 0 <= i < |ts| ==> ts[i] == nodes[i].Value()
  {
    seq(|nodes|, i requires 0 <= i < |nodes| reads nodes => nodes[i].Value())
  }

  class TimerList {
    var timers: TimerNode?
    var oldnow: uint32
    ghost var nodes: seq<TimerNode>
    ghost var repr: set<TimerNode>   // every node that has been on the list

    /** `nodes` is the chain hanging off `timers`: it ends, and no node is on it twice. */
    ghost predicate Valid()
      reads this, repr
    {
      && (forall i :: 0 <= i < |nodes| ==> nodes[i] in repr)
      && timers == (if nodes == [] then null else nodes[0])
      && (forall i {:trigger nodes[i].next} :: 0 <= i < |nodes| ==>
            nodes[i].next == if i + 1 < |nodes| then nodes[i + 1] else null)
      && (forall i, j :: 0 <= i < j < |nodes| ==> nodes[i] != nodes[j])
    }

    constructor ()
      ensures Valid() && nodes == [] && oldnow == 0 && repr == {}
    {
      timers, oldnow, nodes, repr := null, 0, [], {};
    }

    /** mg_timer_init; `ran` is whether the callback was called at once. */
    method Init(t: TimerNode) returns (ran: bool)
      requires Valid() && t !in nodes
      modifies this, t
      ensures Valid() && nodes == [t] + old(nodes) && oldnow == old(oldnow) && repr == old(repr) + {t}
      ensures Values(nodes) == [old(t.Value()).(expire := 0)] + old(Values(nodes))
      ensures ran == t.runNow
    {
      t.expire, t.next := 0, timers;
      timers, nodes, repr := t, [t] + nodes, repr + {t};
      ran := t.runNow;
    }

    /** The walk of mg_timer_free: up to the timer, or to the end. */
    method Find(t: TimerNode) returns (prev: TimerNode?, head: TimerNode?, ghost k: nat)
      requires Valid()
      ensures k <= |nodes| && head == (if k < |nodes| then nodes[k] else null)
      ensures prev == (if k == 0 then null else nodes[k - 1])
      ensures head == null ==> t !in nodes
      ensures head != null ==> head == t && k < |nodes| && nodes[k] == t
    {
      prev, head, k := null, timers, 0;
      while head != null && head != t
        invariant 0 <= k <= |nodes|
        invariant head == if k < |nodes| then nodes[k] else null
        invariant prev == if k == 0 then null else nodes[k - 1]
        invariant t !in nodes[..k]
        decreases |nodes| - k
      {
        prev, head := head, head.next;
        k := k + 1;
      }
    }

    /** The pointer in front of the `k`-th timer moves on to the next one. */
    method Relink(prev: TimerNode?, t: TimerNode, ghost k: nat)
      requires Valid() && k < |nodes| && nodes[k] == t
      requires prev == (if k == 0 then null else nodes[k - 1])
      modifies this, repr
      ensures Valid() && oldnow == old(oldnow) && repr == old(repr)
      ensures nodes == old(nodes)[..k] + old(nodes)[k + 1..]
      ensures forall n :: n in old(nodes) ==> n.Value() == old(n.Value())
    {
      if prev == null { timers := t.next; } else { prev.next := t.next; }
      nodes := nodes[..k] + nodes[k + 1..];
    }

    /** Takes the `k`-th timer out of the chain; the others keep their values. */
    method Unlink(prev: TimerNode?, t: TimerNode, ghost k: nat)
      requires Valid() && k < |nodes| && nodes[k] == t
      requires prev == (if k == 0 then null else nodes[k - 1])
      modifies this, repr
      ensures Valid() && oldnow == old(oldnow) && repr == old(repr)
      ensures nodes == old(nodes)[..k] + old(nodes)[k + 1..]
      ensures Values(nodes) == old(Values(nodes))[..k] + old(Values(nodes))[k + 1..]
    {
      hide Valid;
      ghost var was, vs := nodes, Values(nodes);
      Relink(prev, t, k);
      WithoutOne(was, vs, k);
    }

    lemma OnlyPlace(t: TimerNode, k: nat)
      requires Valid() && k < |nodes| && nodes[k] == t
      ensures forall i :: 0 <= i < |nodes| && nodes[i] == t ==> i == k
    {
    }

    /** mg_timer_free: unlinks the timer if it is listed. */
    method Free(t: TimerNode)
      requires Valid()
      modifies this, repr
      ensures Valid() && oldnow == old(oldnow) && repr == old(repr)
      ensures t !in old(nodes) ==> nodes == old(nodes)
      ensures forall k :: 0 <= k < |old(nodes)| && old(nodes)[k] == t ==>
                nodes == old(nodes)[..k] + old(nodes)[k + 1..]
                && Values(nodes) == old(Values(nodes))[..k] + old(Values(nodes))[k + 1..]
    {
      hide Valid, Values;
      var prev, head, k := Find(t);
      if head != null {
        OnlyPlace(t, k);
        Unlink(prev, t, k);
      }
    }

    /** The values of the remaining timers are what they were. */
    lemma WithoutOne(was: seq<TimerNode>, vs: seq<TimerValue>, k: nat)
      requires k < |was| == |vs| && forall i :: 0 <= i < |was| ==> was[i].Value() == vs[i]
      requires nodes == was[..k] + was[k + 1..]
      ensures Values(nodes) == vs[..k] + vs[k + 1..]
    {
    }

    /** The first loop of mg_timer_poll. */
    method ResetAll()
      requires Valid()
      modifies repr
      ensures Valid() && Values(nodes) == Reset(old(Values(nodes)), true)
    {
      var t := timers;
      ghost var k := 0;
      while t != null
        invariant 0 <= k <= |nodes| && t == if k < |nodes| then nodes[k] else null
        invariant Valid()
        invariant forall i :: 0 <= i < |nodes| ==> nodes[i].expire == if i < k then 0 else old(nodes[i].expire)
        decreases |nodes| - k
      {
        t.expire := 0;
        t := t.next;
        k := k + 1;
      }
    }

    /** mg_timer_poll, its callbacks leaving the list alone. */
    method Poll(now: uint32) returns (calls: seq<nat>)
      requires Valid()
      modifies this, repr
      ensures Valid() && oldnow == now && repr == old(repr)
      ensures Values(nodes) == Kept(Reset(old(Values(nodes)), old(oldnow) > now), now)
      ensures calls == Calls(Reset(old(Values(nodes)), old(oldnow) > now), now)
    {
      hide Kept, Calls;
      if oldnow > now { ResetAll(); }
      oldnow := now;
      calls := PollAll(now);
    }

    /** The first `i` of the timers `all` with values `ts` have been polled. */
    ghost predicate Polling(ts: seq<TimerValue>, all: seq<TimerNode>, i: nat, now: uint32)
      requires i <= |all| == |ts|
      reads this, nodes
    {
      var kept := Kept(ts[..i], now);
      && |kept| <= |nodes| && nodes[|kept|..] == all[i..]
      && Values(nodes) == kept + ts[i..]
    }

    lemma NonePolled(ts: seq<TimerValue>, now: uint32)
      requires ts == Values(nodes)
      ensures Polling(ts, nodes, 0, now)
    {
      hide Kept, Values;
      NothingYet(ts, now);
      assert nodes[0..] == nodes && [] + ts[0..] == ts;
    }

    lemma FirstListed()
      requires Valid()
      ensures timers == if 0 < |nodes| then nodes[0] else null
    {
    }

    lemma AllPolled(ts: seq<TimerValue>, all: seq<TimerNode>, now: uint32)
      requires |all| == |ts| && Polling(ts, all, |all|, now)
      ensures Values(nodes) == Kept(ts, now)
    {
      assert ts[..|all|] == ts && ts[|all|..] == [];
    }

    /** The second loop of mg_timer_poll and what it comes to. */
    method PollAll(now: uint32) returns (calls: seq<nat>)
      requires Valid()
      modifies this, repr
      ensures Valid() && oldnow == old(oldnow) && repr == old(repr)
      ensures Values(nodes) == Kept(old(Values(nodes)), now) && calls == Calls(old(Values(nodes)), now)
    {
      ghost var ts, all := Values(nodes), nodes;
      FirstListed();
      NonePolled(ts, now);
      hide Polling, Kept, Valid, Values, Calls;
      calls := PollInTurn(now, ts, all);
      AllPolled(ts, all, now);
    }

    /** The second loop of mg_timer_poll. */
    method PollInTurn(now: uint32, ghost ts: seq<TimerValue>, ghost all: seq<TimerNode>) returns (calls: seq<nat>)
      requires Valid() && |all| == |ts| && Polling(ts, all, 0, now)
      requires timers == if 0 < |all| then all[0] else null
      modifies this, repr
      ensures Valid() && oldnow == old(oldnow) && repr == old(repr)
      ensures Polling(ts, all, |all|, now) && calls == Calls(ts, now)
    {
      hide Polling, Kept, KeptOf, Valid, Calls, CallOf;
      calls := [];
      ghost var i := 0;
      var t := timers;
      NothingYet(ts, now);
      while t != null
        invariant Valid() && 0 <= i <= |all| && oldnow == old(oldnow) && repr == old(repr)
        invariant t == if i < |all| then all[i] else null
        invariant Polling(ts, all, i, now) && calls == Calls(ts[..i], now)
        decreases |all| - i
      {
        var tmp, fired := PollNext(t, now, ts, all, i);
        if fired { calls := calls + [t.call]; }
        OneMoreKept(ts, i, now);
        t := tmp;
        i := i + 1;
      }
      assert i == |all| && ts[..i] == ts;
    }

    /** The body of the second loop. */
    method PollNext(t: TimerNode, now: uint32, ghost ts: seq<TimerValue>, ghost all: seq<TimerNode>, ghost i: nat)
      returns (tmp: TimerNode?, fired: bool)
      requires Valid() && i < |all| == |ts| && t == all[i] && Polling(ts, all, i, now)
      modifies this, repr
      ensures Valid() && Polling(ts, all, i + 1, now) && oldnow == old(oldnow) && repr == old(repr)
      ensures tmp == if i + 1 < |all| then all[i + 1] else null
      ensures CallOf(ts[i], now) == if fired then [t.call] else []
    {
      hide Kept, KeptOf, CallOf;
      ghost var kept := Kept(ts[..i], now);
      ghost var d := |kept|;
      NextInLine(all, i, nodes, d);
      ValueInLine(kept, ts, i);
      tmp := t.next;
      assert tmp == if i + 1 < |all| then all[i + 1] else null by {
        assert d + 1 < |nodes| ==> nodes[d + 1] == nodes[d + 1..][0];
      }
      hide Valid, Values, Polling;
      ghost var was := nodes;
      fired := PollOne(t, now, d);
      OneMorePolled(ts, all, i, now, was);
    }

    lemma OneMorePolled(ts: seq<TimerValue>, all: seq<TimerNode>, i: nat, now: uint32, was: seq<TimerNode>)
      requires i < |all| == |ts| && |Kept(ts[..i], now)| < |was| && was[|Kept(ts[..i], now)|..] == all[i..]
      requires var d := |Kept(ts[..i], now)|;
               nodes == if |KeptOf(ts[i], now)| == 0 then was[..d] + was[d + 1..] else was
      requires var kept := Kept(ts[..i], now);
               var vs := kept + ts[i..];
               Values(nodes) == vs[..|kept|] + KeptOf(ts[i], now) + vs[|kept| + 1..]
      ensures Polling(ts, all, i + 1, now)
    {
      hide Kept, KeptOf, Values;
      var kept, one := Kept(ts[..i], now), KeptOf(ts[i], now);
      OneMoreKept(ts, i, now);
      NextInLine(all, i, was, |kept|);
      PolledSoFar(kept, ts, i, one);
      AtMostOneKept(ts[i], now);
    }

    /** One timer of the second loop, the `d`-th that is listed now. */
    method PollOne(t: TimerNode, now: uint32, ghost d: nat) returns (fired: bool)
      requires Valid() && d < |nodes| && nodes[d] == t
      modifies this, repr
      ensures Valid() && oldnow == old(oldnow) && repr == old(repr)
      ensures nodes == if |KeptOf(old(t.Value()), now)| == 0 then old(nodes)[..d] + old(nodes)[d + 1..] else old(nodes)
      ensures Values(nodes) == old(Values(nodes))[..d] + KeptOf(old(t.Value()), now) + old(Values(nodes))[d + 1..]
      ensures CallOf(old(t.Value()), now) == if fired then [t.call] else []
    {
      assert t in repr;
      ghost var v, vs := t.Value(), Values(nodes);
      hide Valid, Values, KeptOf, Polled, Fires;
      fired := Tick(t, now, d);
      KeptOrNot(v, now);
      Replaced(vs, d, v.(expire := Polled(v.expire, now, v.period)));
      if fired && !t.repeats { Free(t); }
    }

    /** The timer's expiration time in a poll. */
    method Tick(t: TimerNode, now: uint32, ghost d: nat) returns (fired: bool)
      requires Valid() && d < |nodes| && nodes[d] == t
      modifies t`expire
      ensures Valid() && fired == Fires(old(t.expire), now, t.period)
      ensures Values(nodes) == old(Values(nodes))[d := old(t.Value()).(expire := Polled(old(t.expire), now, t.period))]
    {
      if t.expire == 0 { t.expire := Wrap(now + t.period); }
      if t.expire > now { return false; }
      t.expire := if now - t.expire > t.period then Wrap(now + t.period) else Wrap(t.expire + t.period);
      return true;
    }
  }

  lemma NothingYet(ts: seq<TimerValue>, now: uint32)
    ensures Calls(ts[..0], now) == [] && Kept(ts[..0], now) == []
  {
  }

  lemma KeptOrNot(t: TimerValue, now: uint32)
    ensures KeptOf(t, now) ==
              if Fires(t.expire, now, t.period) && !t.repeats then []
              else [t.(expire := Polled(t.expire, now, t.period))]
  {
    hide Fires, Polled;
  }

  lemma Replaced(vs: seq<TimerValue>, d: nat, v: TimerValue)
    requires d < |vs|
    ensures vs[d := v] == vs[..d] + [v] + vs[d + 1..]
    ensures vs[d := v][..d] + vs[d := v][d + 1..] == vs[..d] + [] + vs[d + 1..]
  {
  }

  lemma AtMostOneKept(t: TimerValue, now: uint32)
    ensures |KeptOf(t, now)| <= 1
  {
    hide Fires, Polled;
  }

  lemma PolledSoFar(kept: seq<TimerValue>, ts: seq<TimerValue>, i: nat, one: seq<TimerValue>)
    requires i < |ts|
    ensures var was, d := kept + ts[i..], |kept|;
            was[..d] + one + was[d + 1..] == (kept + one) + ts[i + 1..]
  {
    var was, d := kept + ts[i..], |kept|;
    assert was[..d] == kept && was[d + 1..] == ts[i + 1..];
  }

  lemma NextInLine(all: seq<TimerNode>, i: nat, nodes: seq<TimerNode>, d: nat)
    requires i < |all| && d <= |nodes| && nodes[d..] == all[i..]
    ensures d < |nodes| && nodes[d] == all[i] && nodes[d + 1..] == all[i + 1..]
    ensures (nodes[..d] + nodes[d + 1..])[d..] == all[i + 1..]
  {
    assert nodes[d] == nodes[d..][0];
    assert nodes[d + 1..] == nodes[d..][1..];
    assert all[i + 1..] == all[i..][1..];
  }

  lemma ValueInLine(kept: seq<TimerValue>, ts: seq<TimerValue>, i: nat)
    requires i < |ts|
    ensures (kept + ts[i..])[|kept|] == ts[i]
  {
  }

  lemma OneMoreKept(ts: seq<TimerValue>, i: nat, now: uint32)
    requires i < |ts|
    ensures Kept(ts[..i + 1], now) == Kept(ts[..i], now) + KeptOf(ts[i], now)
    ensures Calls(ts[..i + 1], now) == Calls(ts[..i], now) + CallOf(ts[i], now)
  {
    assert ts[..i + 1][..i] == ts[..i];
  }
}
