// components/mongoose/src/mqtt.c as it runs: packets are appended to the send
// buffer piece by piece, and taken off the receive buffer one by one.
module MqttClient {
  import opened Bytes
  import opened IoBuf
  import opened Mqtt
  import opened MqttConnect

  /** The length encoding of mg_mqtt_send_header, in its five-byte buffer. */
  method EncodeHeader(cmd: byte, flags: byte, len: nat) returns (buf: array<byte>, vlen: nat)
    requires cmd < 16 && flags < 16
    ensures fresh(buf) && vlen <= buf.Length == 5 && buf[..vlen] == Header(cmd, flags, len)
  {
    hide VarLen;
    buf := new byte[5](i => 0);
    buf[0] := cmd * 16 + flags;
    vlen := 1;
    var n := len;
    var more := true;
    while more
      invariant 1 <= vlen <= 5 && (more ==> vlen < 5)
      invariant Header(cmd, flags, len) == buf[..vlen] + if more then VarLen(n, 5 - vlen) else []
      decreases 5 - vlen, more
    {
      VarLenStep(n, 5 - vlen);
      var digit := n % 0x80;
      n := n / 0x80;
      if n > 0 { digit := digit + 0x80; }
      buf[vlen] := digit;
      vlen := vlen + 1;
      more := n > 0 && vlen < 5;
    }
  }

  /** mg_mqtt_send_header, with memory to spare. */
  method SendHeader(send: Buffer, cmd: byte, flags: byte, len: nat)
    requires send.Valid() && cmd < 16 && flags < 16
    modifies send, send.buf
    ensures send.Valid() && (send.buf == old(send.buf) || fresh(send.buf))
    ensures send.Contents() == old(send.Contents()) + Header(cmd, flags, len)
  {
    hide Header, Buffer.Contents;
    var buf, vlen := EncodeHeader(cmd, flags, len);
    MgSend(send, buf[..vlen]);
  }

  lemma VarLenStep(n: nat, room: nat)
    requires room >= 1
    ensures VarLen(n, room) == [n % 0x80 + (if n / 0x80 > 0 then 0x80 else 0)]
                               + (if n / 0x80 > 0 && room > 1 then VarLen(n / 0x80, room - 1) else [])
  {
  }

  method WritePublish(send: Buffer, topic: seq<byte>, data: seq<byte>, qos: nat, retain: bool, id: nat)
    requires send.Valid()
    modifies send, send.buf
    ensures send.Valid() && (send.buf == old(send.buf) || fresh(send.buf))
    ensures send.Contents() == old(send.Contents()) + Publish(topic, data, qos, retain, id)
  {
    hide Header, Be16, Buffer.Contents, Buffer.Valid;
    ghost var s := send.Contents();
    var total := 2 + |topic| + |data|;
    if qos % 4 > 0 { total := total + 2; }
    SendHeader(send, CMD_PUBLISH, PublishFlags(qos, retain), total);
    MgSend(send, Be16(|topic|));
    MgSend(send, topic);
    if qos % 4 > 0 {
      MgSend(send, Be16(id));
    }
    MgSend(send, data);
    ghost var h, t := Header(CMD_PUBLISH, PublishFlags(qos, retain), total), Be16(|topic|);
    ghost var d := if qos % 4 > 0 then Be16(id) else [];
    Grouped(s, h, t, topic, d, data);
  }

  lemma Grouped(s: seq<byte>, h: seq<byte>, a: seq<byte>, b: seq<byte>, c: seq<byte>, d: seq<byte>)
    ensures s + h + a + b + c + d == s + (h + (a + b + c + d))
    ensures s + h + a + b + d == s + h + a + b + [] + d
  {
    assert s + h + a + b + c + d == (s + h) + (a + b + c + d);
    assert s + h + a + b + [] == s + h + a + b;
  }

  method WriteSubscribe(send: Buffer, topic: seq<byte>, qos: nat, id: nat)
    requires send.Valid()
    modifies send, send.buf
    ensures send.Valid() && (send.buf == old(send.buf) || fresh(send.buf))
    ensures send.Contents() == old(send.Contents()) + Subscribe(topic, qos, id)
  {
    hide Header, Be16, Buffer.Contents, Buffer.Valid;
    ghost var s := send.Contents();
    var total := 2 + |topic| + 2 + 1;
    SendHeader(send, CMD_SUBSCRIBE, qos % 4 * 2, total);
    MgSend(send, Be16(id));
    MgSend(send, Be16(|topic|));
    MgSend(send, topic);
    MgSend(send, [qos % 4]);
    Grouped(s, Header(CMD_SUBSCRIBE, qos % 4 * 2, total), Be16(id), Be16(|topic|), topic, [qos % 4]);
  }

  method SendField(send: Buffer, x: seq<byte>)
    requires send.Valid()
    modifies send, send.buf
    ensures send.Valid() && (send.buf == old(send.buf) || fresh(send.buf))
    ensures send.Contents() == old(send.Contents()) + Field(x)
  {
    hide Buffer.Contents, Buffer.Valid;
    ghost var s := send.Contents();
    MgSend(send, Be16(|x|));
    MgSend(send, x);
    assert s + Be16(|x|) + x == s + (Be16(|x|) + x);
  }

  method SendFieldIf(send: Buffer, present: bool, x: seq<byte>)
    requires send.Valid() && (present <==> |x| > 0)
    modifies send, send.buf
    ensures send.Valid() && (send.buf == old(send.buf) || fresh(send.buf))
    ensures send.Contents() == old(send.Contents()) + OptionalField(x)
  {
    hide Buffer.Contents, Buffer.Valid, Field;
    if present {
      SendField(send, x);
    }
  }

  /** The flags and the length of mg_mqtt_login's first half. */
  method LoginFlags(o: Opts) returns (flags: byte, total: nat)
    ensures flags == ConnectFlags(o) && total == DeclaredLength(o)
  {
    total := 7 + 1 + 2 + 2;
    var f := o.qos % 4 * 8;
    if |o.user| > 0 { total, f := total + 2 + |o.user|, f + 0x80; }
    if |o.pass| > 0 { total, f := total + 2 + |o.pass|, f + 0x40; }
    if |o.willTopic| > 0 && |o.willMessage| > 0 { total, f := total + 4 + |o.willTopic| + |o.willMessage|, f + 0x04; }
    if o.clean || |o.clientId| == 0 { f := f + 0x02; }
    if o.willRetain { f := f + 0x20; }
    total := total + |o.clientId|;
    flags := f;
  }

  /** The writing half of mg_mqtt_login. */
  method WriteConnect(send: Buffer, o: Opts)
    requires send.Valid()
    modifies send, send.buf
    ensures send.Valid() && (send.buf == old(send.buf) || fresh(send.buf))
    ensures send.Contents() == old(send.Contents()) + Connect(o)
  {
    hide Header, Be16, Buffer.Contents, Buffer.Valid, Field, ConnectFlags, OptionalField, DeclaredLength;
    ghost var s := send.Contents();
    var flags, total := LoginFlags(o);
    SendHeader(send, CMD_CONNECT, 0, total);
    MgSend(send, PROTOCOL);
    MgSend(send, [flags]);
    MgSend(send, Be16(o.keepalive));
    SendField(send, o.clientId);
    SendOptionalFields(send, o);
    LoginParts(s, Header(CMD_CONNECT, 0, total), PROTOCOL, [flags], Be16(o.keepalive), Field(o.clientId),
               WillFields(o) + (OptionalField(o.user) + OptionalField(o.pass)));
  }

  method SendOptionalFields(send: Buffer, o: Opts)
    requires send.Valid()
    modifies send, send.buf
    ensures send.Valid() && (send.buf == old(send.buf) || fresh(send.buf))
    ensures send.Contents() == old(send.Contents()) + (WillFields(o) + (OptionalField(o.user) + OptionalField(o.pass)))
  {
    hide Buffer.Contents, Buffer.Valid, OptionalField;
    ghost var s := send.Contents();
    var topic, message := if o.HasWill() then o.willTopic else [], if o.HasWill() then o.willMessage else [];
    SendFieldIf(send, o.HasWill(), topic);
    SendFieldIf(send, o.HasWill(), message);
    SendFieldIf(send, |o.user| > 0, o.user);
    SendFieldIf(send, |o.pass| > 0, o.pass);
    ghost var a, b, c, d := OptionalField(topic), OptionalField(message), OptionalField(o.user), OptionalField(o.pass);
    assert s + a + b + c + d == s + ((a + b) + (c + d));
  }

  lemma LoginParts(s: seq<byte>, h: seq<byte>, a: seq<byte>, b: seq<byte>, c: seq<byte>, d: seq<byte>, e: seq<byte>)
    ensures s + h + a + b + c + d + e == s + (h + (a + b + c + (d + e)))
  {
    assert s + h + a + b + c + d + e == (s + h) + (a + b + c) + (d + e);
    assert (s + h) + (a + b + c) + (d + e) == s + (h + ((a + b + c) + (d + e)));
  }

  /** The loop of mg_mqtt_parse over the remaining length. */
  method ParseLength(buf: seq<byte>) returns (l: Length)
    ensures l == ReadLength(buf, 1, 0, 0)
  {
    hide Worth;
    var lc: byte := 0;
    var p: nat, n: nat, lenLen: nat := 1, 0, 0;
    while p < |buf|
      invariant 1 <= p && lenLen < 4 && p == 1 + lenLen
      invariant ReadLength(buf, p, lenLen, n) == ReadLength(buf, 1, 0, 0)
    {
      lc := buf[p];
      p := p + 1;
      n := n + Worth(lc % 0x80, lenLen);
      lenLen := lenLen + 1;
      if lc < 0x80 { return Len(n, p); }
      if lenLen >= 4 { return TooLong; }
    }
    return More;
  }

  /** mg_mqtt_parse */
  method MqttParse(buf: seq<byte>) returns (r: Parsed)
    ensures r == Parse(buf)
  {
    hide ReadLength;
    if |buf| < 2 { return Incomplete; }
    var cmd, qos := buf[0] / 16, buf[0] / 2 % 4;
    var l := ParseLength(buf);
    match l
    case More => return Incomplete;
    case TooLong => return Malformed;
    case Len(n, at) =>
      if at + n > |buf| { return Incomplete; }
      r := ParseFields(cmd, qos, buf, at, at + n);
  }

  /** The switch of mg_mqtt_parse, moving `p` towards `end`. */
  method ParseFields(cmd: byte, qos: nat, buf: seq<byte>, at: nat, end: nat) returns (r: Parsed)
    requires at <= end <= |buf|
    ensures r == ParseBody(cmd, qos, buf[at..end], end)
  {
    var p := at;
    var m := Message(cmd, qos, 0, 0, [], [], end);
    if cmd == CMD_CONNACK {
      if end - p < 2 { return Malformed; }
      m := m.(ack := buf[p + 1]);
    } else if 4 <= cmd <= 9 {
      if p + 2 > end { return Malformed; }
      m := m.(id := Num16(buf, p));
    } else if cmd == CMD_PUBLISH {
      if p + 2 > end { return Malformed; }
      var n := Num16(buf, p);
      ghost var body := buf[at..end];
      assert Num16(body, 0) == n;
      m := m.(topic := if p + 2 + n <= end then buf[p + 2..p + 2 + n] else []);
      p := p + 2 + n;
      if p > end { return Malformed; }
      SliceOfSlice(buf, at, end, 2, 2 + n);
      if qos > 0 {
        if p + 2 > end { return Malformed; }
        m := m.(id := Num16(buf, p));
        assert Num16(body, 2 + n) == Num16(buf, p);
        p := p + 2;
      }
      m := m.(data := buf[p..end]);
      SliceOfSlice(buf, at, end, p - at, end - at);
    }
    r := Ok(m);
  }

  /** The static counters of mg_mqtt_pub and mg_mqtt_sub, shared by all connections. */
  class PacketIds {
    var pub: nat
    var sub: nat

    ghost predicate Valid()
      reads this
    {
      pub < 0x1_0000 && sub < 0x1_0000
    }

    constructor ()
      ensures Valid() && pub == 0 && sub == 0
    {
      pub, sub := 0, 0;
    }
  }

  class Client {
    const send: Buffer
    const recv: Buffer
    const ids: PacketIds
    var isClosing: bool
    ghost var log: seq<Event>

    ghost predicate Valid()
      reads this, send, send.buf, recv, recv.buf, ids
    {
      send.Valid() && recv.Valid() && ids.Valid()
      && send != recv && send.buf != recv.buf
    }

    constructor (ids: PacketIds)
      requires ids.Valid()
      ensures Valid() && this.ids == ids && fresh(send) && fresh(recv) && fresh(send.buf) && fresh(recv.buf)
      ensures send.Contents() == [] && Rx() == Mqtt.Rx([], [], false)
    {
      send := new Buffer();
      recv := new Buffer();
      this.ids := ids;
      isClosing, log := false, [];
    }

    ghost function Rx(): (rx: Mqtt.Rx)
      requires recv.Valid()
      reads this, recv, recv.buf
    {
      Mqtt.Rx(recv.Contents(), log, isClosing)
    }

    /** mg_mqtt_pub; packet ids run through 1..65535. */
    method Pub(topic: seq<byte>, data: seq<byte>, qos: nat, retain: bool)
      requires Valid()
      modifies ids`pub, send, send.buf
      ensures Valid() && (send.buf == old(send.buf) || fresh(send.buf))
      ensures ids.pub == if qos % 4 == 0 then old(ids.pub) else if old(ids.pub) == 0xFFFF then 1 else old(ids.pub) + 1
      ensures send.Contents() == old(send.Contents()) + Publish(topic, data, qos, retain, ids.pub)
    {
      hide Publish, Buffer.Contents;
      if qos % 4 > 0 {
        ids.pub := (ids.pub + 1) % 0x1_0000;
        if ids.pub == 0 { ids.pub := ids.pub + 1; }
      }
      WritePublish(send, topic, data, qos, retain, ids.pub);
    }

    /** mg_mqtt_sub */
    method Sub(topic: seq<byte>, qos: nat)
      requires Valid()
      modifies ids`sub, send, send.buf
      ensures Valid() && (send.buf == old(send.buf) || fresh(send.buf))
      ensures ids.sub == if old(ids.sub) == 0xFFFF then 1 else old(ids.sub) + 1
      ensures send.Contents() == old(send.Contents()) + Subscribe(topic, qos, ids.sub)
    {
      hide Subscribe, Buffer.Contents;
      ids.sub := (ids.sub + 1) % 0x1_0000;
      if ids.sub == 0 { ids.sub := ids.sub + 1; }
      WriteSubscribe(send, topic, qos, ids.sub);
    }

    /** mg_mqtt_login */
    method Login(o: Opts)
      requires Valid()
      modifies send, send.buf
      ensures Valid() && (send.buf == old(send.buf) || fresh(send.buf))
      ensures send.Contents() == old(send.Contents()) + Connect(o)
      ensures DeclaredLength(o) == |ConnectBody(o)|
    {
      hide Connect, ConnectBody, DeclaredLength, Buffer.Contents;
      DeclaredLengthIsExact(o);
      WriteConnect(send, o);
    }

    /** One turn of mqtt_cb's loop. */
    method TakePacket() returns (more: bool)
      requires Valid()
      modifies `isClosing, `log, recv`len, recv.buf
      ensures Valid() && recv.buf == old(recv.buf)
      ensures var rx := old(Rx());
              match Parse(rx.pending)
              case Incomplete => !more && Rx() == rx
              case Malformed => !more && Rx() == rx.(closing := true)
              case Ok(m) => more && Rx() == Mqtt.Rx(rx.pending[m.total..], rx.log + Events(m), rx.closing || Refused(m))
    {
      hide Parse;
      ghost var rx := Rx();
      var r := MqttParse(recv.buf[..recv.len]);
      match r
      case Incomplete =>
        more := false;
      case Malformed =>
        isClosing := true;
        more := false;
      case Ok(m) =>
        if m.cmd == CMD_CONNACK {
          log := log + [Opened(m.ack)];
          if m.ack != 0 { isClosing := true; }
        } else if m.cmd == CMD_PUBLISH {
          log := log + [Msg(m)];
        }
        log := log + [Cmd(m)];
        assert log == rx.log + Events(m);
        assert Removed(rx.pending, 0, m.total) == rx.pending[m.total..];
        var _ := recv.Del(0, m.total);
        more := true;
    }

    /** mqtt_cb on MG_EV_READ */
    method OnRead()
      requires Valid()
      modifies `isClosing, `log, recv`len, recv.buf
      ensures Valid() && recv.buf == old(recv.buf)
      ensures Rx() == Drain(old(Rx()))
    {
      hide Parse, Events;
      var more := true;
      while more
        invariant Valid() && recv.buf == old(recv.buf)
        invariant if more then Drain(Rx()) == Drain(old(Rx())) else Rx() == Drain(old(Rx()))
        decreases more, |Rx().pending|
      {
        more := TakePacket();
      }
    }

    /** A read from the socket, with memory to spare. */
    method Receive(chunk: seq<byte>)
      requires Valid()
      modifies `isClosing, `log, recv, recv.buf
      ensures Valid() && (recv.buf == old(recv.buf) || fresh(recv.buf))
      ensures Rx() == Mqtt.Receive(old(Rx()), chunk)
    {
      MgSend(recv, chunk);
      OnRead();
    }
  }
}
