// components/mongoose/src/mqtt.c on byte sequences: the packets it writes, the
// parser, and what mqtt_cb makes of a stream (sections 2.2.3, 3.1 and 3.3 of
// MQTT 3.1.1).
module Mqtt {
  import opened Bytes
  import opened Wrappers

  const CMD_CONNECT: byte := 1
  const CMD_CONNACK: byte := 2
  const CMD_PUBLISH: byte := 3
  const CMD_SUBSCRIBE: byte := 8

  const MAX_REMAINING: nat := 0x1000_0000

  // ----------------------------------------------------------------- the writer

  /** The remaining length, seven bits at a time, in at most `room` bytes. */
  function VarLen(n: nat, room: nat): (v: seq<byte>)
    requires room >= 1
    ensures 1 <= |v| <= room
    decreases room
  {
    if n / 0x80 == 0 then [n % 0x80]
    else if room == 1 then [n % 0x80 + 0x80]
    else [n % 0x80 + 0x80] + VarLen(n / 0x80, room - 1)
  }

  function Header(cmd: byte, flags: byte, len: nat): (h: seq<byte>)
    requires cmd < 16 && flags < 16
    ensures 2 <= |h| <= 5
  {
    [cmd * 16 + flags] + VarLen(len, 4)
  }

  function PublishBody(topic: seq<byte>, data: seq<byte>, qos: nat, id: nat): (b: seq<byte>) {
    Be16(|topic|) + topic + (if qos % 4 > 0 then Be16(id) else []) + data
  }

  function PublishFlags(qos: nat, retain: bool): (f: byte)
    ensures f < 16
  {
    qos % 4 * 2 + if retain then 1 else 0
  }

  /** A PUBLISH packet. */
  function Publish(topic: seq<byte>, data: seq<byte>, qos: nat, retain: bool, id: nat): (w: seq<byte>) {
    var body := PublishBody(topic, data, qos, id);
    Header(CMD_PUBLISH, PublishFlags(qos, retain), |body|) + body
  }

  /** A SUBSCRIBE packet. */
  function Subscribe(topic: seq<byte>, qos: nat, id: nat): (w: seq<byte>) {
    var body := SubscribeBody(topic, qos, id);
    Header(CMD_SUBSCRIBE, SubscribeFlags(qos), |body|) + body
  }

  function SubscribeBody(topic: seq<byte>, qos: nat, id: nat): (b: seq<byte>) {
    Be16(id) + Be16(|topic|) + topic + [qos % 4]
  }

  /** MQTT_QOS(qos), which is meant for PUBLISH. */
  function SubscribeFlags(qos: nat): (f: byte)
    ensures f < 16
  {
    qos % 4 * 2
  }

  // ----------------------------------------------------------------- the parser

  datatype Message = Message(cmd: byte, qos: nat, id: nat, ack: byte, topic: seq<byte>, data: seq<byte>, total: nat)

  datatype Parsed = Incomplete | Malformed | Ok(msg: Message)

  datatype Length = More | TooLong | Len(n: nat, at: nat)

  /** The remaining length, read from byte `i` on after `k` of its bytes. */
  function ReadLength(buf: seq<byte>, i: nat, k: nat, n: nat): (l: Length)
    requires k < 4
    ensures l.Len? ==> i < l.at <= |buf|
    decreases 4 - k
  {
    if i >= |buf| then More
    else
      var n' := n + Worth(buf[i] % 0x80, k);
      if buf[i] < 0x80 then Len(n', i + 1)
      else if k + 1 >= 4 then TooLong
      else ReadLength(buf, i + 1, k + 1, n')
  }

  /** 1 << 7 * k */
  function Weight(k: nat): (w: nat)
    requires k < 4
  {
    if k == 0 then 1 else if k == 1 then 0x80 else if k == 2 then 0x4000 else 0x20_0000
  }

  /** What digits are worth from position `k` on. */
  function Worth(digits: nat, k: nat): (n: nat)
    requires k < 4
  {
    digits * Weight(k)
  }

  /** What the body of a packet adds to its message. */
  function ParseBody(cmd: byte, qos: nat, body: seq<byte>, total: nat): (p: Parsed)
    ensures p != Incomplete
    ensures p.Ok? ==> p.msg.total == total && p.msg.cmd == cmd
  {
    var m := Message(cmd, qos, 0, 0, [], [], total);
    if cmd == CMD_CONNACK then
      if |body| < 2 then Malformed else Ok(m.(ack := body[1]))
    else if 4 <= cmd <= 9 then
      if |body| < 2 then Malformed else Ok(m.(id := Num16(body, 0)))
    else if cmd == CMD_PUBLISH then
      if |body| < 2 then Malformed
      else
        var t := 2 + Num16(body, 0);
        if t > |body| then Malformed
        else if qos > 0 then
          if t + 2 > |body| then Malformed
          else Ok(m.(topic := body[2..t], id := Num16(body, t), data := body[t + 2..]))
        else Ok(m.(topic := body[2..t], data := body[t..]))
    else Ok(m)
  }

  /** mg_mqtt_parse */
  function Parse(buf: seq<byte>): (p: Parsed)
    ensures p.Ok? ==> 2 <= p.msg.total <= |buf|
  {
    if |buf| < 2 then Incomplete
    else
      match ReadLength(buf, 1, 0, 0)
      case More => Incomplete
      case TooLong => Malformed
      case Len(n, at) =>
        if at + n > |buf| then Incomplete
        else ParseBody(buf[0] / 16, buf[0] / 2 % 4, buf[at..at + n], at + n)
  }

  // --------------------------------------------------------------- the round trip

  /** A length below the limit is read back; any other is found too long. */
  lemma {:induction false} LengthRoundTrip(len: nat, buf: seq<byte>, i: nat, k: nat, n: nat)
    requires k < 4 && LiesAt(VarLen(len, 4 - k), buf, i)
    ensures ReadLength(buf, i, k, n) ==
              if Worth(len, k) < MAX_REMAINING then Len(n + Worth(len, k), i + |VarLen(len, 4 - k)|) else TooLong
    decreases 4 - k
  {
    hide Worth;
    var v := VarLen(len, 4 - k);
    assert buf[i] == v[0];
    SevenBits(len, k);
    if len / 0x80 != 0 && k < 3 {
      RestLiesAt(v, buf, i);
      assert v[1..] == VarLen(len / 0x80, 3 - k);
      LengthRoundTrip(len / 0x80, buf, i + 1, k + 1, n + Worth(len % 0x80, k));
    }
  }

  /** Splitting off the low seven bits. */
  lemma SevenBits(len: nat, k: nat)
    requires k < 4
    ensures len / 0x80 == 0 ==> len % 0x80 == len && Worth(len, k) < MAX_REMAINING
    ensures k < 3 ==> Worth(len, k) == Worth(len % 0x80, k) + Worth(len / 0x80, k + 1)
    ensures k < 3 ==> (Worth(len, k) < MAX_REMAINING <==> Worth(len / 0x80, k + 1) < MAX_REMAINING)
    ensures k == 3 && len / 0x80 != 0 ==> Worth(len, k) >= MAX_REMAINING
  {
    if k == 0 {
    } else if k == 1 {
    } else if k == 2 {
    } else {
    }
  }

  /** A packet is framed exactly when its remaining length is below 2^28. */
  lemma Framed(cmd: byte, flags: byte, body: seq<byte>, rest: seq<byte>)
    requires cmd < 16 && flags < 16
    ensures Parse(Header(cmd, flags, |body|) + body + rest) ==
              if |body| < MAX_REMAINING
              then ParseBody(cmd, flags / 2 % 4, body, |Header(cmd, flags, |body|)| + |body|)
              else Malformed
  {
    hide ParseBody, VarLen, ReadLength, LiesAt, Worth;
    assert Worth(|body|, 0) == |body| by { WorthHere(|body|); }
    var v, h := VarLen(|body|, 4), Header(cmd, flags, |body|);
    var buf := h + body + rest;
    VarLenLies(cmd * 16 + flags, v, body + rest);
    assert buf == [cmd * 16 + flags] + v + (body + rest);
    LengthRoundTrip(|body|, buf, 1, 0, 0);
    FirstByte(cmd, flags);
    if |body| < MAX_REMAINING {
      assert buf[|h|..|h| + |body|] == body;
    }
  }

  lemma VarLenLies(first: byte, v: seq<byte>, rest: seq<byte>)
    ensures LiesAt(v, [first] + v + rest, 1)
  {
  }

  lemma WorthHere(len: nat)
    ensures Worth(len, 0) == len
  {
  }

  lemma FirstByte(cmd: nat, flags: nat)
    requires cmd < 16 && flags < 16
    ensures (cmd * 16 + flags) / 16 == cmd && (cmd * 16 + flags) / 2 % 4 == flags / 2 % 4
  {
    SixteenfoldQuotient(cmd, flags);
    HalfOfSum(cmd, flags);
    FoursVanish(2 * cmd, flags / 2);
  }

  lemma SixteenfoldQuotient(a: nat, b: nat)
    requires b < 16
    ensures (a * 16 + b) / 16 == a
  {
  }

  lemma HalfOfSum(a: nat, b: nat)
    ensures (a * 16 + b) / 2 == 4 * (2 * a) + b / 2
  {
  }

  lemma FoursVanish(a: nat, b: nat)
    ensures (4 * a + b) % 4 == b % 4
  {
  }

  lemma QualityInFlags(q: nat, b: nat)
    requires q < 4 && b < 2
    ensures (q * 2 + b) / 2 % 4 == q
  {
    assert (q * 2 + b) / 2 == q;
  }

  /**
   * A published packet followed by anything is read back: topic, data, quality
   * of service, packet id and exact length, as long as its length can be written.
   */
  lemma PublishRoundTrip(topic: seq<byte>, data: seq<byte>, qos: nat, retain: bool, id: nat, rest: seq<byte>)
    requires |topic| < 0x1_0000 && id < 0x1_0000
    ensures var w := Publish(topic, data, qos, retain, id);
            Parse(w + rest) ==
              if |PublishBody(topic, data, qos, id)| < MAX_REMAINING
              then Ok(Message(CMD_PUBLISH, qos % 4, if qos % 4 > 0 then id else 0, 0, topic, data, |w|))
              else Malformed
  {
    hide Parse, Header;
    var flags, body := PublishFlags(qos, retain), PublishBody(topic, data, qos, id);
    Framed(CMD_PUBLISH, flags, body, rest);
    QualityInFlags(qos % 4, if retain then 1 else 0);
    Be16RoundTrip(|topic|);
    Be16RoundTrip(id);
    PublishParts(Be16(|topic|), topic, if qos % 4 > 0 then Be16(id) else [], data);
  }

  lemma PublishParts(n: seq<byte>, topic: seq<byte>, d: seq<byte>, data: seq<byte>)
    requires |n| == 2
    ensures var body, t := n + topic + d + data, 2 + |topic|;
            && body[0] == n[0] && body[1] == n[1] && body[2..t] == topic
            && (|d| == 2 ==> body[t] == d[0] && body[t + 1] == d[1]) && body[t + |d|..] == data
  {
    assert n + topic + d + data == n + (topic + (d + data));
  }

  datatype Subscription = Subscription(id: nat, topic: seq<byte>, qos: nat)

  /**
   * What a broker reads, section 3.8: the flags are 2, the packet id is not 0, and one topic filter of
   * at least one octet is followed by a quality of at most 2.
   */
  function ReadSubscribe(flags: byte, body: seq<byte>): (r: Option<Subscription>) {
    if flags != 2 || |body| < 5 || Num16(body, 0) == 0 then None
    else
      var n := Num16(body, 2);
      if n == 0 || |body| != 5 + n || body[4 + n] > 2 then None
      else Some(Subscription(Num16(body, 0), body[4..4 + n], body[4 + n]))
  }

  /** A subscription is read back exactly when quality 1 is asked for: the flags carry it, but are reserved. */
  lemma SubscribeReadsBack(topic: seq<byte>, qos: nat, id: nat)
    requires |topic| < 0x1_0000 && id < 0x1_0000
    ensures ReadSubscribe(SubscribeFlags(qos), SubscribeBody(topic, qos, id)) ==
              if qos % 4 == 1 && topic != [] && id != 0 then Some(Subscription(id, topic, 1)) else None
  {
    var body := SubscribeBody(topic, qos, id);
    Be16RoundTrip(|topic|);
    Be16RoundTrip(id);
    var n, d := Be16(|topic|), Be16(id);
    assert body[0] == d[0] && body[1] == d[1] && body[2] == n[0] && body[3] == n[1];
    assert body[4..4 + |topic|] == topic && body[4 + |topic|] == qos % 4;
  }

  /** A complete verdict stands when more bytes arrive. */
  lemma MoreBytesChangeNothing(buf: seq<byte>, more: seq<byte>)
    requires Parse(buf) != Incomplete
    ensures Parse(buf + more) == Parse(buf)
  {
    hide ParseBody;
    LengthOfLonger(buf, more, 1, 0, 0);
    match ReadLength(buf, 1, 0, 0)
    case Len(n, at) => SliceOfPrefix(buf, more, at, at + n);
    case _ =>
  }

  lemma {:induction false} LengthOfLonger(buf: seq<byte>, more: seq<byte>, i: nat, k: nat, n: nat)
    requires k < 4
    ensures ReadLength(buf, i, k, n) != More ==> ReadLength(buf + more, i, k, n) == ReadLength(buf, i, k, n)
    decreases 4 - k
  {
    if i < |buf| && k + 1 < 4 {
      LengthOfLonger(buf, more, i + 1, k + 1, n + Worth(buf[i] % 0x80, k));
    }
  }

  /** Short of its last byte, a packet is incomplete. */
  lemma StrictPrefixesAreIncomplete(buf: seq<byte>, k: nat)
    requires Parse(buf).Ok? && k < Parse(buf).msg.total
    ensures Parse(buf[..k]) == Incomplete
  {
    hide ParseBody;
    assert buf == buf[..k] + buf[k..];
    LengthOfLonger(buf[..k], buf[k..], 1, 0, 0);
  }

  // ------------------------------------------------------------- the stream side

  datatype Event = Opened(ack: byte) | Msg(msg: Message) | Cmd(msg: Message)

  /** The receive side of a connection. */
  datatype Rx = Rx(pending: seq<byte>, log: seq<Event>, closing: bool)

  function Events(m: Message): (es: seq<Event>) {
    (if m.cmd == CMD_CONNACK then [Opened(m.ack)] else if m.cmd == CMD_PUBLISH then [Msg(m)] else []) + [Cmd(m)]
  }

  predicate Refused(m: Message) {
    m.cmd == CMD_CONNACK && m.ack != 0
  }

  /** mqtt_cb on MG_EV_READ */
  function Drain(rx: Rx): (rx': Rx)
    decreases |rx.pending|
  {
    match Parse(rx.pending)
    case Incomplete => rx
    case Malformed => rx.(closing := true)
    case Ok(m) => Drain(Rx(rx.pending[m.total..], rx.log + Events(m), rx.closing || Refused(m)))
  }

  function Receive(rx: Rx, chunk: seq<byte>): (rx': Rx) {
    Drain(rx.(pending := rx.pending + chunk))
  }

  function ReceiveAll(rx: Rx, chunks: seq<seq<byte>>): (rx': Rx)
    decreases |chunks|
  {
    if chunks == [] then rx else ReceiveAll(Receive(rx, chunks[0]), chunks[1..])
  }

  lemma {:induction false} DrainThenMore(rx: Rx, more: seq<byte>)
    ensures Drain(rx.(pending := rx.pending + more)) == Drain(Drain(rx).(pending := Drain(rx).pending + more))
    decreases |rx.pending|
  {
    hide Parse, Events;
    var p := Parse(rx.pending);
    if p != Incomplete {
      MoreBytesChangeNothing(rx.pending, more);
      if p.Ok? {
        var next := Rx(rx.pending[p.msg.total..], rx.log + Events(p.msg), rx.closing || Refused(p.msg));
        assert (rx.pending + more)[p.msg.total..] == next.pending + more;
        DrainThenMore(next, more);
      }
    }
  }

  /** A drained receive side stays as it is. */
  lemma {:induction false} DrainTwice(rx: Rx)
    ensures Drain(Drain(rx)) == Drain(rx)
    decreases |rx.pending|
  {
    hide Parse, Events;
    var p := Parse(rx.pending);
    if p.Ok? {
      DrainTwice(Rx(rx.pending[p.msg.total..], rx.log + Events(p.msg), rx.closing || Refused(p.msg)));
    }
  }

  /** For every byte stream, well formed or not, the events do not depend on how it is cut into reads. */
  lemma {:induction false} CuttingIsIrrelevant(rx: Rx, chunks: seq<seq<byte>>)
    requires Drain(rx) == rx
    ensures ReceiveAll(rx, chunks) == Drain(rx.(pending := rx.pending + Concat(chunks)))
    decreases |chunks|
  {
    hide Parse, Events;
    if chunks == [] {
      assert rx.pending + [] == rx.pending;
    } else {
      var c, rest := chunks[0], Concat(chunks[1..]);
      var rx1 := rx.(pending := rx.pending + c);
      DrainTwice(rx1);
      CuttingIsIrrelevant(Receive(rx, c), chunks[1..]);
      DrainThenMore(rx1, rest);
      assert rx.pending + c + rest == rx.pending + (c + rest);
    }
  }

  /** What one side publishes. */
  datatype Publication = Publication(topic: seq<byte>, data: seq<byte>, qos: nat, retain: bool, id: nat)
  {
    ghost predicate Ok() {
      |topic| < 0x1_0000 && id < 0x1_0000 && |PublishBody(topic, data, qos, id)| < MAX_REMAINING
    }
    function Wire(): seq<byte> { Publish(topic, data, qos, retain, id) }
    function Read(): Message {
      var id' := if qos % 4 > 0 then id else 0;
      Message(CMD_PUBLISH, qos % 4, id', 0, topic, data, |Publish(topic, data, qos, retain, id)|)
    }
  }

  function WireOf(ps: seq<Publication>): (w: seq<byte>) {
    if ps == [] then [] else ps[0].Wire() + WireOf(ps[1..])
  }

  function EventsOf(ps: seq<Publication>): (es: seq<Event>) {
    if ps == [] then [] else [Msg(ps[0].Read()), Cmd(ps[0].Read())] + EventsOf(ps[1..])
  }

  lemma {:induction false} DrainPublications(rx: Rx, ps: seq<Publication>)
    requires forall i :: 0 <= i < |ps| ==> ps[i].Ok()
    requires rx.pending == WireOf(ps)
    ensures Drain(rx) == Rx([], rx.log + EventsOf(ps), rx.closing)
    decreases |ps|
  {
    hide Parse, Publish;
    if ps == [] {
      assert Parse([]) == Incomplete by { NothingIsIncomplete(); }
    } else {
      var p, rest := ps[0], WireOf(ps[1..]);
      PublishRoundTrip(p.topic, p.data, p.qos, p.retain, p.id, rest);
      assert (p.Wire() + rest)[|p.Wire()|..] == rest;
      var next := Rx(rest, rx.log + Events(p.Read()), rx.closing);
      DrainPublications(next, ps[1..]);
      assert Events(p.Read()) == [Msg(p.Read()), Cmd(p.Read())];
      assert rx.log + Events(p.Read()) + EventsOf(ps[1..]) == rx.log + EventsOf(ps);
    }
  }

  lemma NothingIsIncomplete()
    ensures Parse([]) == Incomplete
  {
  }

  /** Every publication is delivered once and in order, however the stream is cut, and nothing is left behind. */
  lemma PublicationsAreDeliveredOnce(ps: seq<Publication>, chunks: seq<seq<byte>>)
    requires forall i :: 0 <= i < |ps| ==> ps[i].Ok()
    requires Concat(chunks) == WireOf(ps)
    ensures ReceiveAll(Rx([], [], false), chunks) == Rx([], EventsOf(ps), false)
  {
    hide Parse;
    NothingIsIncomplete();
    CuttingIsIrrelevant(Rx([], [], false), chunks);
    assert [] + Concat(chunks) == WireOf(ps);
    DrainPublications(Rx(WireOf(ps), [], false), ps);
    assert [] + EventsOf(ps) == EventsOf(ps);
  }
}
