// What the octets of MQTT packets are, and what mqtt_cb (components/mongoose/src/mqtt.c) tells of
// every stream of them: in the terms of what was sent, not of the parser.
module MqttEvents {
  import opened Bytes
  import opened Mqtt
  import opened MqttConnect

  // ------------------------------------------------------------------- the octets

  /** Least significant seven bits first; every octet but the last has its top bit set. */
  lemma LengthOctets(a: nat, b: nat, c: nat, d: nat)
    requires a < 128 && b < 128 && c < 128 && d < 128
    ensures VarLen(a, 4) == [a]
    ensures b > 0 ==> VarLen(a + 128 * b, 4) == [128 + a, b]
    ensures c > 0 ==> VarLen(a + 128 * (b + 128 * c), 4) == [128 + a, 128 + b, c]
    ensures d > 0 ==> VarLen(a + 128 * (b + 128 * (c + 128 * d)), 4) == [128 + a, 128 + b, 128 + c, d]
  {
    hide VarLen;
    LastLength(a, 4);
    LastLength(b, 3);
    LastLength(c, 2);
    LastLength(d, 1);
    if b > 0 { MoreLength(a, b, 4); }
    if c > 0 { MoreLength(b, c, 3); MoreLength(a, b + 128 * c, 4); }
    if d > 0 {
      MoreLength(c, d, 2);
      MoreLength(b, c + 128 * d, 3);
      MoreLength(a, b + 128 * (c + 128 * d), 4);
    }
  }

  lemma LastLength(a: nat, room: nat)
    requires a < 128 && room >= 1
    ensures VarLen(a, room) == [a]
  {
  }

  lemma MoreLength(a: nat, n: nat, room: nat)
    requires a < 128 && n > 0 && room >= 2
    ensures VarLen(a + 128 * n, room) == [128 + a] + VarLen(n, room - 1)
  {
    assert (a + 128 * n) / 128 == n && (a + 128 * n) % 128 == a;
  }

  /** The kind of packet in the upper half of the first octet, what is said of it in the lower. */
  lemma FirstOctets(topic: seq<byte>, data: seq<byte>, qos: nat, retain: bool, id: nat, o: Opts)
    ensures Publish(topic, data, qos, retain, id)[0] == 48 + 2 * (qos % 4) + if retain then 1 else 0
    ensures Subscribe(topic, qos, id)[0] == 128 + 2 * (qos % 4)
    ensures Connect(o)[0] == 16 && ConnectBody(o)[..7] == [0, 4, 77, 81, 84, 84, 4]
  {
    hide VarLen, WillFields;
  }

  // ------------------------------------------------------------------- the stream

  /** A packet as the other side writes it. */
  datatype Packet =
    | Connack(flags: nat, session: byte, code: byte, more: seq<byte>)
    | Ack(cmd: nat, flags: nat, id: nat, more: seq<byte>)
    | Published(p: Publication)
    | Other(cmd: nat, flags: nat, body: seq<byte>)
  {
    /** PUBACK, PUBREC, PUBREL, PUBCOMP, SUBSCRIBE and SUBACK carry an id. */
    ghost predicate Ok() {
      match this
      case Connack(f, _, _, more) => f < 16 && |more| + 2 < MAX_REMAINING
      case Ack(c, f, id, more) => 4 <= c <= 9 && f < 16 && id < 0x1_0000 && |more| + 2 < MAX_REMAINING
      case Published(p) => p.Ok()
      case Other(c, f, body) => (c <= 1 || 10 <= c <= 15) && f < 16 && |body| < MAX_REMAINING
    }

    ghost function Wire(): seq<byte>
      requires Ok()
    {
      match this
      case Connack(f, session, code, more) => [32 + f] + VarLen(|more| + 2, 4) + ([session, code] + more)
      case Ack(c, f, id, more) => [16 * c + f] + VarLen(|more| + 2, 4) + ([id / 256, id % 256] + more)
      case Published(p) => p.Wire()
      case Other(c, f, body) => [16 * c + f] + VarLen(|body|, 4) + body
    }

    /** What the program is told. */
    ghost function Told(): seq<Event>
      requires Ok()
    {
      match this
      case Connack(f, _, code, _) => [Opened(code), Cmd(Message(2, f / 2 % 4, 0, code, [], [], |Wire()|))]
      case Ack(c, f, id, _) => [Cmd(Message(c, f / 2 % 4, id, 0, [], [], |Wire()|))]
      case Published(p) => [Msg(p.Read()), Cmd(p.Read())]
      case Other(c, f, _) => [Cmd(Message(c, f / 2 % 4, 0, 0, [], [], |Wire()|))]
    }

    predicate Refuses() { Connack? && code != 0 }
  }

  ghost predicate AllOk(ps: seq<Packet>) {
    forall i :: 0 <= i < |ps| ==> ps[i].Ok()
  }

  ghost function Wires(ps: seq<Packet>): (w: seq<byte>)
    requires AllOk(ps)
  {
    if ps == [] then [] else ps[0].Wire() + Wires(ps[1..])
  }

  ghost function ToldOfAll(ps: seq<Packet>): (es: seq<Event>)
    requires AllOk(ps)
  {
    if ps == [] then [] else ps[0].Told() + ToldOfAll(ps[1..])
  }

  /** The message a packet makes. */
  ghost function MessageOf(p: Packet): (m: Message)
    requires p.Ok()
  {
    p.Told()[|p.Told()| - 1].msg
  }

  lemma PacketIsRead(p: Packet, rest: seq<byte>)
    requires p.Ok()
    ensures Parse(p.Wire() + rest) == Parsed.Ok(MessageOf(p)) && MessageOf(p).total == |p.Wire()|
    ensures Events(MessageOf(p)) == p.Told() && (Refused(MessageOf(p)) <==> p.Refuses())
  {
    hide Parse, VarLen, PublishBody, Publish;
    match p
    case Connack(f, session, code, more) => Framed(2, f, [session, code] + more, rest);
    case Ack(c, f, id, more) => Framed(c, f, [id / 256, id % 256] + more, rest);
    case Published(q) => PublishRoundTrip(q.topic, q.data, q.qos, q.retain, q.id, rest);
    case Other(c, f, body) => Framed(c, f, body, rest);
  }

  ghost predicate SomeRefuses(ps: seq<Packet>) {
    exists i :: 0 <= i < |ps| && ps[i].Refuses()
  }

  lemma RefusesSplits(ps: seq<Packet>)
    requires ps != []
    ensures SomeRefuses(ps) <==> ps[0].Refuses() || SomeRefuses(ps[1..])
  {
    if i :| 0 < i < |ps| && ps[i].Refuses() {
      assert ps[1..][i - 1].Refuses();
    }
  }

  lemma NoneRefuses()
    ensures !SomeRefuses([])
  {
  }

  lemma {:induction false} DrainPackets(rx: Rx, ps: seq<Packet>, tail: seq<byte>)
    requires AllOk(ps) && rx.pending == Wires(ps) + tail && !Parse(tail).Ok?
    ensures Drain(rx) == Rx(tail, rx.log + ToldOfAll(ps), rx.closing || SomeRefuses(ps) || Parse(tail) == Malformed)
    decreases |ps|
  {
    hide Parse, Events, Refused, SomeRefuses, Packet.Wire, Packet.Told, Packet.Refuses, Packet.Ok;
    if ps == [] {
      NoneRefuses();
      assert rx.pending == tail && rx.log + [] == rx.log;
    } else {
      var p, rest := ps[0], Wires(ps[1..]) + tail;
      assert rx.pending == p.Wire() + rest;
      PacketIsRead(p, rest);
      assert (p.Wire() + rest)[|p.Wire()|..] == rest;
      RefusesSplits(ps);
      DrainPackets(Rx(rest, rx.log + p.Told(), rx.closing || p.Refuses()), ps[1..], tail);
      assert rx.log + p.Told() + ToldOfAll(ps[1..]) == rx.log + ToldOfAll(ps);
    }
  }

  /**
   * However a stream is cut, every packet is told of once, in order and by its own fields. The
   * connection closes exactly for a refusal among them or a malformed packet behind them.
   */
  lemma EverythingIsToldInOrder(ps: seq<Packet>, tail: seq<byte>, chunks: seq<seq<byte>>)
    requires AllOk(ps) && Concat(chunks) == Wires(ps) + tail && !Parse(tail).Ok?
    ensures ReceiveAll(Rx([], [], false), chunks) ==
              Rx(tail, ToldOfAll(ps), SomeRefuses(ps) || Parse(tail) == Malformed)
  {
    hide Parse, ToldOfAll, Wires, SomeRefuses;
    NothingIsIncomplete();
    CuttingIsIrrelevant(Rx([], [], false), chunks);
    assert [] + Concat(chunks) == Wires(ps) + tail;
    DrainPackets(Rx(Wires(ps) + tail, [], false), ps, tail);
    assert [] + ToldOfAll(ps) == ToldOfAll(ps);
  }

  // ------------------------------------------------------------------ what is refused

  function Digit(buf: seq<byte>, k: nat): (d: nat)
    requires k < |buf|
  {
    buf[k] % 128
  }

  /** What the first `k` octets of the length are worth. */
  function Number(buf: seq<byte>, k: nat): (n: nat)
    requires k <= 4 && k < |buf|
  {
    if k == 0 then 0
    else if k == 1 then Digit(buf, 1)
    else if k == 2 then Digit(buf, 1) + 128 * Digit(buf, 2)
    else if k == 3 then Digit(buf, 1) + 128 * Digit(buf, 2) + 16384 * Digit(buf, 3)
    else Digit(buf, 1) + 128 * Digit(buf, 2) + 16384 * Digit(buf, 3) + 2097152 * Digit(buf, 4)
  }

  /** The octets behind the first up to the `k`-th have their top bit set. */
  predicate GoesOn(buf: seq<byte>, k: nat) {
    k < |buf| && forall j :: 1 <= j <= k ==> buf[j] >= 128
  }

  /** `k` octets of length, of which the last alone has its top bit clear, say `n`. */
  predicate LengthIs(buf: seq<byte>, k: nat, n: nat) {
    1 <= k <= 4 && k < |buf| && GoesOn(buf, k - 1) && buf[k] < 128 && n == Number(buf, k)
  }

  lemma {:induction false} ReadsOn(buf: seq<byte>, k: nat)
    requires k <= 3 && GoesOn(buf, k)
    ensures ReadLength(buf, 1, 0, 0) == ReadLength(buf, k + 1, k, Number(buf, k))
  {
    if k > 0 {
      ReadsOn(buf, k - 1);
      assert buf[k] >= 128;
      NumberGrows(buf, k - 1);
    }
  }

  lemma NumberGrows(buf: seq<byte>, k: nat)
    requires k < 4 && k + 1 < |buf|
    ensures Number(buf, k + 1) == Number(buf, k) + Worth(buf[k + 1] % 128, k)
  {
  }

  /** Where the run of octets with a set top bit ends, four at most. */
  lemma {:induction false} RunEnds(buf: seq<byte>, k: nat) returns (e: nat)
    requires k <= 4 && GoesOn(buf, k)
    ensures k <= e <= 4 && GoesOn(buf, e) && (e < 4 && e + 1 < |buf| ==> buf[e + 1] < 128)
    decreases 4 - k
  {
    e := k;
    if k < 4 && k + 1 < |buf| && buf[k + 1] >= 128 {
      e := RunEnds(buf, k + 1);
    }
  }

  lemma LengthIsReadExactly(buf: seq<byte>, k: nat, n: nat)
    requires |buf| >= 2
    ensures ReadLength(buf, 1, 0, 0) == Len(n, k + 1) <==> LengthIs(buf, k, n)
    ensures ReadLength(buf, 1, 0, 0) == TooLong <==> GoesOn(buf, 4)
  {
    hide Number, Worth;
    assert GoesOn(buf, 0);
    var e := RunEnds(buf, 0);
    ReadsOn(buf, if e < 4 then e else 3);
    if e < 4 && e + 1 < |buf| {
      NumberGrows(buf, e);
      assert LengthIs(buf, k, n) ==> k == e + 1;
    } else {
      assert !LengthIs(buf, k, n);
    }
  }

  /** A body too short for what its kind of packet has to hold. */
  predicate TooShort(cmd: nat, qos: nat, body: seq<byte>) {
    || (2 <= cmd <= 9 && |body| < 2)
    || (cmd == 3 && |body| >= 2 && |body| < 2 + Num16(body, 0) + if qos > 0 then 2 else 0)
  }

  predicate BodyTooShort(buf: seq<byte>, k: nat, n: nat) {
    k + 1 + n <= |buf| && TooShort(buf[0] / 16, buf[0] / 2 % 4, buf[k + 1..k + 1 + n])
  }

  lemma BodyRefused(cmd: byte, qos: nat, body: seq<byte>, total: nat)
    ensures ParseBody(cmd, qos, body, total) == Malformed <==> TooShort(cmd, qos, body)
  {
  }

  /** A packet is found malformed exactly for a length without an end, or a complete body that is too short. */
  lemma MalformedExactly(buf: seq<byte>)
    ensures Parse(buf) == Malformed <==>
              GoesOn(buf, 4) || exists k: nat, n: nat :: LengthIs(buf, k, n) && BodyTooShort(buf, k, n)
  {
    hide ReadLength, LengthIs, GoesOn, ParseBody, TooShort;
    if |buf| >= 2 {
      LengthIsReadExactly(buf, 0, 0);
      match ReadLength(buf, 1, 0, 0)
      case Len(n, at) =>
        LengthIsReadExactly(buf, at - 1, n);
        if at + n <= |buf| { BodyRefused(buf[0] / 16, buf[0] / 2 % 4, buf[at..at + n], at + n); }
        forall k: nat, m: nat | LengthIs(buf, k, m) ensures k == at - 1 && m == n { LengthIsReadExactly(buf, k, m); }
      case _ =>
        forall k: nat, m: nat ensures !LengthIs(buf, k, m) { LengthIsReadExactly(buf, k, m); }
    } else {
      TooShortToBegin(buf);
    }
  }

  lemma TooShortToBegin(buf: seq<byte>)
    requires |buf| < 2
    ensures !GoesOn(buf, 4) && forall k: nat, n: nat :: !LengthIs(buf, k, n)
  {
  }
}
