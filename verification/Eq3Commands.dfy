// Valve commands, the bytes they are sent as, and the queue discipline of
// main/eq3_main.c stated on sequences: duplicate suppression on entry, and
// retry by rotation to the back of the queue.
module Eq3Commands {
  import opened Bytes
  import opened Wrappers

  const MAX_CMD_BYTES: nat := 6
  const MAX_CMD_RETRIES: int := 3

  type Address = a: seq<byte> | |a| == 6 witness [0, 0, 0, 0, 0, 0]
  type Parms = p: seq<byte> | |p| == MAX_CMD_BYTES witness [0, 0, 0, 0, 0, 0]

  datatype Kind = Boost | Unboost | Auto | Manual | Eco | SetTemp | Offset | SetTime | Lock | Unlock

  /** What a client asks for. */
  datatype Request = Request(bleda: Address, kind: Kind, parms: Parms)

  /** A queued request and the attempts it has left. */
  datatype Command = Command(req: Request, retries: int)

  /** Return codes of command_complete. */
  datatype Outcome = Done | Retry | Failed

  // ---------------------------------------------------------------- encoding

  /** The characteristic value for a request; None where setup_command has no case. */
  function Encode(r: Request): (v: seq<byte>)
    requires r.kind != Eco
    ensures 2 <= |v| <= 7
  {
    match r.kind
    case SetTime => [0x03] + r.parms
    case Boost => [0x45, 0x01]
    case Unboost => [0x45, 0x00]
    case Auto => [0x40, 0x00]
    case Manual => [0x40, 0x40]
    case SetTemp => [0x41, r.parms[0]]
    case Offset => [0x13, r.parms[0]]
    case Lock => [0x80, 1]
    case Unlock => [0x80, 0]
  }

  /** What a valve reads back from a characteristic value: the command and the parameters it uses. */
  function Decode(v: seq<byte>): (d: Option<(Kind, seq<byte>)>) {
    if |v| == 7 && v[0] == 0x03 then Some((SetTime, v[1..]))
    else if v == [0x45, 1] then Some((Boost, []))
    else if v == [0x45, 0] then Some((Unboost, []))
    else if v == [0x40, 0] then Some((Auto, []))
    else if v == [0x40, 0x40] then Some((Manual, []))
    else if |v| == 2 && v[0] == 0x41 then Some((SetTemp, v[1..]))
    else if |v| == 2 && v[0] == 0x13 then Some((Offset, v[1..]))
    else if v == [0x80, 1] then Some((Lock, []))
    else if v == [0x80, 0] then Some((Unlock, []))
    else None
  }

  /** The parameter bytes that matter for a kind of command. */
  function UsedParms(r: Request): (p: seq<byte>) {
    match r.kind
    case SetTime => r.parms
    case SetTemp => r.parms[..1]
    case Offset => r.parms[..1]
    case _ => []
  }

  /** No two requests that differ in meaning are sent as the same bytes. */
  lemma EncodingIsUnambiguous(r: Request)
    requires r.kind != Eco
    ensures Decode(Encode(r)) == Some((r.kind, UsedParms(r)))
  {
    match r.kind
    case SetTime => assert Encode(r)[1..] == r.parms;
    case SetTemp => assert Encode(r)[1..] == r.parms[..1];
    case Offset => assert Encode(r)[1..] == r.parms[..1];
    case _ =>
  }

  // ------------------------------------------------- the queue as a sequence

  /** The last command queued for the request's device is this very request. */
  ghost predicate StillPending(q: seq<Command>, r: Request) {
    exists i :: 0 <= i < |q| && q[i].req == r && forall j :: i < j < |q| ==> q[j].req.bleda != r.bleda
  }

  /** The duplicate test of enqueue_command: look at the last command queued for the device. */
  function IsStillPending(q: seq<Command>, r: Request): (b: bool)
    ensures b <==> StillPending(q, r)
  {
    if q == [] then false
    else if q[|q| - 1].req.bleda == r.bleda then
      assert q[|q| - 1].req == r ==> StillPending(q, r);
      q[|q| - 1].req == r
    else
      assert StillPending(q[..|q| - 1], r) <==> StillPending(q, r);
      IsStillPending(q[..|q| - 1], r)
  }

  function Enqueued(q: seq<Command>, c: Command): (q': seq<Command>) {
    if IsStillPending(q, c.req) then q else q + [c]
  }

  function Succeeded(q: seq<Command>): (q': seq<Command>) {
    if q == [] then [] else q[1..]
  }

  function FailureOutcome(q: seq<Command>): (o: Outcome) {
    if q == [] then Done else if q[0].retries - 1 <= 0 then Failed else Retry
  }

  function AfterFailure(q: seq<Command>): (q': seq<Command>) {
    match FailureOutcome(q)
    case Done => q
    case Failed => q[1..]
    case Retry => q[1..] + [Charged(q[0])]
  }

  function Charged(c: Command): (c': Command) {
    c.(retries := c.retries - 1)
  }

  // ------------------------------------------- exhaustion under failures only

  function RetriesLeft(q: seq<Command>): (n: int) {
    if q == [] then 0 else q[0].retries + RetriesLeft(q[1..])
  }

  lemma {:induction false} RetriesLeftOfSnoc(q: seq<Command>, c: Command)
    ensures RetriesLeft(q + [c]) == RetriesLeft(q) + c.retries
  {
    if q == [] {
      assert RetriesLeft([c]) == c.retries + RetriesLeft([c][1..]);
    } else {
      RetriesLeftOfSnoc(q[1..], c);
      assert (q + [c])[1..] == q[1..] + [c];
    }
  }

  ghost predicate Live(q: seq<Command>) {
    forall i :: 0 <= i < |q| ==> 1 <= q[i].retries <= MAX_CMD_RETRIES
  }

  /** Each failure uses up exactly one attempt, and leaves the queue live. */
  lemma FailureCostsOneAttempt(q: seq<Command>)
    requires Live(q) && q != []
    ensures Live(AfterFailure(q))
    ensures RetriesLeft(AfterFailure(q)) == RetriesLeft(q) - 1
  {
    RetriesLeftOfSnoc(q[1..], Charged(q[0]));
  }

  /** The queue after `n` failures in a row. */
  function AfterFailures(q: seq<Command>, n: nat): (q': seq<Command>)
    decreases n
  {
    if n == 0 then q else AfterFailures(AfterFailure(q), n - 1)
  }

  /** The request given up on by one failure, if any. */
  function GivenUpNow(q: seq<Command>): (rs: seq<Request>) {
    if FailureOutcome(q) == Failed then [q[0].req] else []
  }

  /** The requests given up on (EQ3_CMD_FAILED) during `n` failures in a row, in order. */
  function GivenUp(q: seq<Command>, n: nat): (rs: seq<Request>)
    decreases n
  {
    if n == 0 then []
    else GivenUpNow(q) + GivenUp(AfterFailure(q), n - 1)
  }

  lemma {:induction false} FailuresCompose(q: seq<Command>, m: nat, n: nat)
    ensures AfterFailures(q, m + n) == AfterFailures(AfterFailures(q, m), n)
    decreases m
  {
    if m > 0 {
      hide AfterFailure;
      FailuresCompose(AfterFailure(q), m - 1, n);
    }
  }

  lemma GivenUpFirst(q: seq<Command>, n: nat)
    requires n > 0
    ensures GivenUp(q, n) == GivenUpNow(q) + GivenUp(AfterFailure(q), n - 1)
    ensures AfterFailures(q, n) == AfterFailures(AfterFailure(q), n - 1)
  {
    hide AfterFailure, FailureOutcome;
  }

  lemma {:induction false} GivenUpComposes(q: seq<Command>, m: nat, n: nat)
    ensures GivenUp(q, m + n) == GivenUp(q, m) + GivenUp(AfterFailures(q, m), n)
    decreases m
  {
    if m > 0 {
      hide AfterFailure, FailureOutcome;
      GivenUpComposes(AfterFailure(q), m - 1, n);
      GivenUpFirst(q, m);
      GivenUpFirst(q, m + n);
      hide GivenUp, AfterFailures;
      ConcatAssociates(GivenUpNow(q), GivenUp(AfterFailure(q), m - 1), GivenUp(AfterFailures(q, m), n));
    }
  }

  /** A live queue is empty after as many failures as it has attempts, and not before. */
  lemma {:induction false} ExhaustedExactlyWhenAttemptsRunOut(q: seq<Command>, n: nat)
    requires Live(q)
    ensures AfterFailures(q, n) == [] <==> RetriesLeft(q) <= n
    decreases n
  {
    LiveQueuesHaveAttempts(q);
    if n > 0 {
      if q == [] {
        assert AfterFailure(q) == [];
        ExhaustedExactlyWhenAttemptsRunOut(q, n - 1);
      } else {
        FailureCostsOneAttempt(q);
        ExhaustedExactlyWhenAttemptsRunOut(AfterFailure(q), n - 1);
      }
    }
  }

  lemma {:induction false} LiveQueuesHaveAttempts(q: seq<Command>)
    requires Live(q)
    ensures RetriesLeft(q) >= |q|
  {
    if q != [] {
      assert forall i :: 0 <= i < |q[1..]| ==> q[1..][i] == q[i + 1];
      LiveQueuesHaveAttempts(q[1..]);
    }
  }

  function WithRetries(rs: seq<Request>, k: int): (q: seq<Command>)
    ensures |q| == |rs| && forall i :: 0 <= i < |rs| ==> q[i] == Command(rs[i], k)
  {
    seq(|rs|, i requires 0 <= i < |rs| => Command(rs[i], k))
  }

  function ChargedAll(q: seq<Command>): (q': seq<Command>)
    ensures |q'| == |q| && forall i :: 0 <= i < |q| ==> q'[i] == Charged(q[i])
  {
    seq(|q|, i requires 0 <= i < |q| => Charged(q[i]))
  }

  function Requests(q: seq<Command>): (rs: seq<Request>)
    ensures |rs| == |q| && forall i :: 0 <= i < |q| ==> rs[i] == q[i].req
  {
    seq(|q|, i requires 0 <= i < |q| => q[i].req)
  }

  /**
   * As many failures as there are retryable commands in front charge each of them once and move them,
   * in order, to the back.
   */
  lemma {:induction false} Round(front: seq<Command>, back: seq<Command>)
    requires forall i :: 0 <= i < |front| ==> front[i].retries > 1
    ensures AfterFailures(front + back, |front|) == back + ChargedAll(front)
    ensures GivenUp(front + back, |front|) == []
    decreases |front|
  {
    hide AfterFailure, AfterFailures, GivenUp;
    NoFailures(back);
    if front == [] {
      assert front + back == back && ChargedAll(front) == [];
    } else {
      FrontMoves(front, back);
      GivenUpFirst(front + back, |front|);
      hide FailureOutcome;
      Round(front[1..], back + [Charged(front[0])]);
      ChargedConcatAssociates(front, back);
    }
  }

  lemma NoFailures(q: seq<Command>)
    ensures AfterFailures(q, 0) == q && GivenUp(q, 0) == []
  {
  }

  lemma ChargedConcatAssociates(front: seq<Command>, back: seq<Command>)
    requires front != []
    ensures (back + [Charged(front[0])]) + ChargedAll(front[1..]) == back + ChargedAll(front)
  {
    assert ChargedAll(front) == [Charged(front[0])] + ChargedAll(front[1..]);
  }

  lemma FrontMoves(front: seq<Command>, back: seq<Command>)
    requires front != []
    ensures var q := front + back;
            if front[0].retries > 1
            then FailureOutcome(q) == Retry && AfterFailure(q) == front[1..] + (back + [Charged(front[0])])
            else FailureOutcome(q) == Failed && AfterFailure(q) == front[1..] + back
  {
    var q := front + back;
    assert q[1..] == front[1..] + back;
    assert (front[1..] + back) + [Charged(front[0])] == front[1..] + (back + [Charged(front[0])]);
  }

  /** As many failures as there are last attempts in front give up on each of them, in order. */
  lemma {:induction false} LastRound(front: seq<Command>, back: seq<Command>)
    requires forall i :: 0 <= i < |front| ==> front[i].retries <= 1
    ensures AfterFailures(front + back, |front|) == back
    ensures GivenUp(front + back, |front|) == Requests(front)
    decreases |front|
  {
    hide AfterFailure, AfterFailures, GivenUp;
    NoFailures(back);
    if front == [] {
      assert front + back == back;
    } else {
      FrontMoves(front, back);
      GivenUpFirst(front + back, |front|);
      hide FailureOutcome;
      LastRound(front[1..], back);
      assert Requests(front) == [front[0].req] + Requests(front[1..]);
    }
  }

  lemma ChargingRound(rs: seq<Request>, k: int)
    requires k > 1
    ensures AfterFailures(WithRetries(rs, k), |rs|) == WithRetries(rs, k - 1) && GivenUp(WithRetries(rs, k), |rs|) == []
  {
    hide AfterFailures, GivenUp;
    var q := WithRetries(rs, k);
    Round(q, []);
    assert q + [] == q && [] + ChargedAll(q) == WithRetries(rs, k - 1);
  }

  lemma GivingUpRound(rs: seq<Request>)
    ensures AfterFailures(WithRetries(rs, 1), |rs|) == [] && GivenUp(WithRetries(rs, 1), |rs|) == rs
  {
    hide AfterFailures, GivenUp;
    var q := WithRetries(rs, 1);
    LastRound(q, []);
    assert q + [] == q && Requests(q) == rs;
  }

  /** From n fresh commands, 3n failures empty the queue and give up on each command once, in queue order. */
  lemma RoundRobinExhaustion(rs: seq<Request>)
    ensures var n := |rs|;
            var q := WithRetries(rs, MAX_CMD_RETRIES);
            && AfterFailures(q, n) == WithRetries(rs, 2)
            && AfterFailures(q, 2 * n) == WithRetries(rs, 1)
            && GivenUp(q, 2 * n) == []
            && AfterFailures(q, 3 * n) == []
            && GivenUp(q, 3 * n) == rs
  {
    hide AfterFailures, GivenUp, WithRetries;
    var n, q := |rs|, WithRetries(rs, 3);
    ChargingRound(rs, 3);
    ChargingRound(rs, 2);
    GivingUpRound(rs);
    FailuresCompose(q, n, n);
    FailuresCompose(q, 2 * n, n);
    GivenUpComposes(q, n, n);
    GivenUpComposes(q, 2 * n, n);
  }

  /** Rotation can put two equal requests for one device next to each other: suppression is only done on entry. */
  lemma RotationCanDuplicate(a: Address, p: Parms)
    ensures var c, d := Request(a, Boost, p), Request(a, Unboost, p);
            var q := Enqueued(Enqueued(Enqueued([], Command(c, 3)), Command(d, 3)), Command(c, 3));
            AfterFailure(q) == [Command(d, 3), Command(c, 3), Command(c, 2)]
  {
    var c, d := Request(a, Boost, p), Request(a, Unboost, p);
    var q1 := Enqueued([], Command(c, 3));
    assert q1 == [Command(c, 3)];
    assert !StillPending(q1, d);
    var q2 := Enqueued(q1, Command(d, 3));
    assert q2 == [Command(c, 3), Command(d, 3)];
    assert q2[1].req.bleda == c.bleda && q2[1].req != c;
    assert !StillPending(q2, c);
  }

  /** No command repeats the one queued before it for the same device. */
  ghost predicate NoRepeats(q: seq<Command>) {
    forall i :: 0 <= i < |q| ==> !StillPending(q[..i], q[i].req)
  }

  lemma EntryKeepsNoRepeats(q: seq<Command>, c: Command)
    requires NoRepeats(q)
    ensures NoRepeats(Enqueued(q, c))
  {
    hide IsStillPending, StillPending;
    var q' := Enqueued(q, c);
    forall i | 0 <= i < |q'| ensures !StillPending(q'[..i], q'[i].req) {
      if i < |q| {
        assert q'[..i] == q[..i];
      } else {
        assert q'[..i] == q;
      }
    }
  }

  /** What is pending behind the head is pending with it. */
  lemma PendingBehindTheHead(q: seq<Command>, i: nat, r: Request)
    requires 0 < i <= |q| && StillPending(q[1..][..i - 1], r)
    ensures StillPending(q[..i], r)
  {
    var rest := q[1..][..i - 1];
    var k :| 0 <= k < |rest| && rest[k].req == r && forall j :: k < j < |rest| ==> rest[j].req.bleda != r.bleda;
    assert forall j :: 0 < j < i ==> q[..i][j] == rest[j - 1];
    assert q[..i][k + 1].req == r;
  }

  lemma RemovalKeepsNoRepeats(q: seq<Command>)
    requires q != [] && NoRepeats(q)
    ensures NoRepeats(q[1..])
  {
    hide StillPending;
    forall i | 0 <= i < |q[1..]| ensures !StillPending(q[1..][..i], q[1..][i].req) {
      assert !StillPending(q[..i + 1], q[i + 1].req);
      if StillPending(q[1..][..i], q[1..][i].req) {
        PendingBehindTheHead(q, i + 1, q[i + 1].req);
      }
    }
  }

  /**
   * A failure makes a repetition exactly when the head is retried behind a queue that ends, for its
   * device, in the same request.
   */
  lemma RotationRepeatsExactly(q: seq<Command>)
    requires q != [] && NoRepeats(q)
    ensures NoRepeats(AfterFailure(q)) <==> q[0].retries <= 1 || !StillPending(q[1..], q[0].req)
  {
    hide StillPending;
    RemovalKeepsNoRepeats(q);
    if q[0].retries > 1 {
      var rest, q' := q[1..], AfterFailure(q);
      assert q' == rest + [Charged(q[0])];
      assert q'[..|rest|] == rest && q'[|rest|].req == q[0].req;
      forall i | 0 <= i < |rest| ensures q'[..i] == rest[..i] && q'[i] == rest[i] {
      }
    }
  }

  /** The commands queued for one device, in order. */
  function ForDevice(q: seq<Command>, a: Address): (rs: seq<Request>) {
    if q == [] then [] else (if q[0].req.bleda == a then [q[0].req] else []) + ForDevice(q[1..], a)
  }

  lemma {:induction false} ForDeviceOfSnoc(q: seq<Command>, c: Command, a: Address)
    ensures ForDevice(q + [c], a) == ForDevice(q, a) + if c.req.bleda == a then [c.req] else []
  {
    if q == [] {
      assert [c][1..] == [];
    } else {
      ForDeviceOfSnoc(q[1..], c, a);
      assert (q + [c])[1..] == q[1..] + [c];
    }
  }

  predicate AllAre(x: seq<Request>, r: Request) {
    forall k :: 0 <= k < |x| ==> x[k] == r
  }

  predicate AllForDeviceAre(q: seq<Command>, a: Address, r: Request) {
    forall i :: 0 <= i < |q| && q[i].req.bleda == a ==> q[i].req == r
  }

  lemma {:induction false} AllForDevice(q: seq<Command>, a: Address, r: Request)
    ensures AllAre(ForDevice(q, a), r) <==> AllForDeviceAre(q, a, r)
  {
    if q != [] {
      var x, y := if q[0].req.bleda == a then [q[0].req] else [], ForDevice(q[1..], a);
      AllForDevice(q[1..], a, r);
      AllAreInBoth(x, y, r);
      AllBehind(q, a, r);
      hide AllAre, AllForDeviceAre;
      assert ForDevice(q, a) == x + y;
    }
  }

  lemma AllAreInBoth(x: seq<Request>, y: seq<Request>, r: Request)
    ensures AllAre(x + y, r) <==> AllAre(x, r) && AllAre(y, r)
    ensures AllAre([], r) && forall s :: AllAre([s], r) <==> s == r
  {
    assert forall k :: 0 <= k < |x| ==> (x + y)[k] == x[k];
    assert forall k :: 0 <= k < |y| ==> (x + y)[|x| + k] == y[k];
    assert forall s: Request :: [s][0] == s;
  }

  lemma AllBehind(q: seq<Command>, a: Address, r: Request)
    requires q != []
    ensures AllForDeviceAre(q, a, r) <==>
              (q[0].req.bleda == a ==> q[0].req == r) && AllForDeviceAre(q[1..], a, r)
  {
    assert forall i :: 0 < i < |q| ==> q[i] == q[1..][i - 1];
    assert forall i :: 0 <= i < |q[1..]| ==> q[1..][i] == q[i + 1];
  }

  /** Putting an element behind a sequence instead of in front changes nothing exactly when they are all the same. */
  lemma {:induction false} BehindOrInFront(x: seq<Request>, r: Request, k: nat)
    requires x + [r] == [r] + x && k < |x|
    ensures x[k] == r
    decreases k
  {
    assert (x + [r])[k] == ([r] + x)[k];
    if k > 0 { BehindOrInFront(x, r, k - 1); }
  }

  /** A retry keeps the order of each device's commands exactly when all for the head's device are equal to it. */
  lemma {:induction false} RetryKeepsOrderExactly(q: seq<Command>)
    requires q != [] && q[0].retries > 1
    ensures (forall a :: ForDevice(AfterFailure(q), a) == ForDevice(q, a)) <==>
            AllForDeviceAre(q, q[0].req.bleda, q[0].req)
  {
    var h, rest := q[0].req, q[1..];
    var x := ForDevice(rest, h.bleda);
    AllForDevice(rest, h.bleda, h);
    AllBehind(q, h.bleda, h);
    hide AllForDeviceAre, AfterFailure;
    forall a: Address
      ensures ForDevice(AfterFailure(q), a) == ForDevice(q, a) <==> (a == h.bleda ==> x + [h] == [h] + x)
    {
      RetriedForDevice(q, a);
    }
    assert ForDevice(AfterFailure(q), h.bleda) == ForDevice(q, h.bleda) <==> x + [h] == [h] + x;
    if x + [h] == [h] + x {
      forall k | 0 <= k < |x| ensures x[k] == h {
        BehindOrInFront(x, h, k);
      }
    }
    if AllAre(x, h) {
      assert x + [h] == [h] + x;
    }
  }

  lemma RetriedForDevice(q: seq<Command>, a: Address)
    requires q != [] && q[0].retries > 1
    ensures var h, x := q[0].req, ForDevice(q[1..], a);
            if h.bleda == a then ForDevice(AfterFailure(q), a) == x + [h] && ForDevice(q, a) == [h] + x
            else ForDevice(AfterFailure(q), a) == ForDevice(q, a) == x
  {
    ForDeviceOfSnoc(q[1..], Charged(q[0]), a);
  }
}
