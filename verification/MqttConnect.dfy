// The CONNECT packet of mg_mqtt_login (components/mongoose/src/mqtt.c): the length
// it declares is the length it has, and a reader that follows section 3.1 of MQTT
// 3.1.1 gets back what was asked for.
module MqttConnect {
  import opened Bytes
  import opened Mqtt
  import opened Wrappers

  /** struct mg_mqtt_opts, with the credentials taken from the URL. */
  datatype Opts = Opts(
    user: seq<byte>, pass: seq<byte>, clientId: seq<byte>, willTopic: seq<byte>, willMessage: seq<byte>,
    qos: nat, willRetain: bool, clean: bool, keepalive: nat)
  {
    predicate HasWill() { |willTopic| > 0 && |willMessage| > 0 }

    /** The combinations that section 3.1.2 of MQTT 3.1.1 allows. */
    predicate Allowed() {
      && (|pass| > 0 ==> |user| > 0)
      && (!HasWill() ==> qos % 4 == 0 && !willRetain)
      && qos % 4 != 3
    }

    ghost predicate Ok() {
      && |user| < 0x1_0000 && |pass| < 0x1_0000 && |clientId| < 0x1_0000
      && |willTopic| < 0x1_0000 && |willMessage| < 0x1_0000 && keepalive < 0x1_0000
    }
  }

  function ConnectFlags(o: Opts): (f: byte) {
    o.qos % 4 * 8
    + (if |o.user| > 0 then 0x80 else 0)
    + (if |o.pass| > 0 then 0x40 else 0)
    + (if o.HasWill() then 0x04 else 0)
    + (if o.clean || |o.clientId| == 0 then 0x02 else 0)
    + (if o.willRetain then 0x20 else 0)
  }

  /** total_len, as mg_mqtt_login adds it up. */
  function DeclaredLength(o: Opts): (n: nat) {
    7 + 1 + 2 + 2
    + (if |o.user| > 0 then 2 + |o.user| else 0)
    + (if |o.pass| > 0 then 2 + |o.pass| else 0)
    + (if o.HasWill() then 4 + |o.willTopic| + |o.willMessage| else 0)
    + |o.clientId|
  }

  function Field(x: seq<byte>): (f: seq<byte>)
    ensures |f| == 2 + |x|
  {
    Be16(|x|) + x
  }

  const PROTOCOL: seq<byte> := [0, 4, 'M' as int, 'Q' as int, 'T' as int, 'T' as int, 4]

  function WillFields(o: Opts): (f: seq<byte>) {
    OptionalField(if o.HasWill() then o.willTopic else []) + OptionalField(if o.HasWill() then o.willMessage else [])
  }

  function OptionalField(x: seq<byte>): (f: seq<byte>) {
    if |x| > 0 then Field(x) else []
  }

  /** What is sent behind the fixed header. */
  function ConnectBody(o: Opts): (b: seq<byte>) {
    PROTOCOL + [ConnectFlags(o)] + Be16(o.keepalive)
    + (Field(o.clientId) + (WillFields(o) + (OptionalField(o.user) + OptionalField(o.pass))))
  }

  function Connect(o: Opts): (w: seq<byte>) {
    Header(CMD_CONNECT, 0, DeclaredLength(o)) + ConnectBody(o)
  }

  /** For every combination of client id, user, password and will, the declared length is the number of bytes sent. */
  lemma DeclaredLengthIsExact(o: Opts)
    ensures DeclaredLength(o) == |ConnectBody(o)|
  {
  }

  /** So the packet is framed exactly. */
  lemma ConnectIsFramed(o: Opts, rest: seq<byte>)
    requires o.Ok()
    ensures Parse(Connect(o) + rest) == Ok(Message(CMD_CONNECT, 0, 0, 0, [], [], |Connect(o)|))
  {
    hide Parse, Header, ConnectBody;
    DeclaredLengthIsExact(o);
    Framed(CMD_CONNECT, 0, ConnectBody(o), rest);
  }

  // -------------------------------------------------------------- reading it back

  /** What a broker reads: section 3.1.2 and 3.1.3. */
  datatype Connection = Connection(
    clean: bool, willQos: nat, willRetain: bool, keepalive: nat, clientId: seq<byte>,
    willTopic: Option<seq<byte>>, willMessage: Option<seq<byte>>, user: Option<seq<byte>>, pass: Option<seq<byte>>)

  /** A length-prefixed field, and what is behind it. */
  function TakeField(b: seq<byte>): (f: Option<(seq<byte>, seq<byte>)>) {
    if |b| < 2 || |b| < 2 + Num16(b, 0) then None
    else Some((b[2..2 + Num16(b, 0)], b[2 + Num16(b, 0)..]))
  }

  function TakeIf(present: bool, b: seq<byte>): (f: Option<(Option<seq<byte>>, seq<byte>)>) {
    if !present then Some((None, b))
    else match TakeField(b)
      case None => None
      case Some((x, rest)) => Some((Some(x), rest))
  }

  predicate Bit(flags: byte, weight: nat)
    requires weight > 0
  {
    flags / weight % 2 == 1
  }

  datatype Fields = Fields(
    clientId: seq<byte>, topic: Option<seq<byte>>, message: Option<seq<byte>>,
    user: Option<seq<byte>>, pass: Option<seq<byte>>)

  /** The payload fields, steered by the flags; None unless they are all there and nothing else. */
  function ReadFields(b: seq<byte>, flags: byte): (r: Option<Fields>) {
    match TakeField(b)
    case None => None
    case Some((clientId, b0)) =>
      match TakeIf(Bit(flags, 0x04), b0)
      case None => None
      case Some((topic, b1)) =>
        match TakeIf(Bit(flags, 0x04), b1)
        case None => None
        case Some((message, b2)) =>
          match TakeIf(Bit(flags, 0x80), b2)
          case None => None
          case Some((user, b3)) =>
            match TakeIf(Bit(flags, 0x40), b3)
            case None => None
            case Some((pass, b4)) => if b4 == [] then Some(Fields(clientId, topic, message, user, pass)) else None
  }

  /**
   * What section 3.1.2 asks of the flags: the lowest bit is reserved; no password
   * without a user name; without a will neither its quality nor its retain flag;
   * and no third quality.
   */
  predicate FlagsAllowed(flags: byte) {
    && flags % 2 == 0
    && (Bit(flags, 0x40) ==> Bit(flags, 0x80))
    && (!Bit(flags, 0x04) ==> flags / 8 % 4 == 0 && !Bit(flags, 0x20))
    && flags / 8 % 4 != 3
  }

  /** A CONNECT body, field by field; None if it is not one, or if it breaks the rules for the flags. */
  function ReadConnect(b: seq<byte>): (c: Option<Connection>) {
    if |b| < 10 || b[..7] != PROTOCOL || !FlagsAllowed(b[7]) then None
    else
      match ReadFields(b[10..], b[7])
      case None => None
      case Some(Fields(clientId, topic, message, user, pass)) =>
        Some(Connection(Bit(b[7], 0x02), b[7] / 8 % 4, Bit(b[7], 0x20), Num16(b, 8),
                        clientId, topic, message, user, pass))
  }

  lemma FlagBits(o: Opts)
    ensures var f := ConnectFlags(o);
            && Bit(f, 0x80) == (|o.user| > 0) && Bit(f, 0x40) == (|o.pass| > 0) && Bit(f, 0x04) == o.HasWill()
            && Bit(f, 0x02) == (o.clean || |o.clientId| == 0) && Bit(f, 0x20) == o.willRetain && f / 8 % 4 == o.qos % 4
            && f % 2 == 0
  {
    var a, b, c := if |o.user| > 0 then 1 else 0, if |o.pass| > 0 then 1 else 0, if o.willRetain then 1 else 0;
    var d, e := if o.HasWill() then 1 else 0, if o.clean || |o.clientId| == 0 then 1 else 0;
    assert ConnectFlags(o) == 2 * (2 * (2 * (4 * (2 * (2 * a + b) + c) + o.qos % 4) + d) + e);
    Digits(a, b, c, o.qos % 4, d, e);
  }

  /** The flags digit by digit. */
  lemma Digits(a: nat, b: nat, c: nat, q: nat, d: nat, e: nat)
    requires a < 2 && b < 2 && c < 2 && q < 4 && d < 2 && e < 2
    ensures var f := 2 * (2 * (2 * (4 * (2 * (2 * a + b) + c) + q) + d) + e);
            && f / 0x80 % 2 == a && f / 0x40 % 2 == b && f / 0x20 % 2 == c && f / 8 % 4 == q
            && f / 0x04 % 2 == d && f / 0x02 % 2 == e && f % 2 == 0
  {
    var f6 := 2 * a + b;
    var f5 := 2 * f6 + c;
    var f3 := 4 * f5 + q;
    var f2 := 2 * f3 + d;
    var f1 := 2 * f2 + e;
    LastDigit(f6, a, b);
    LastDigit(f5, f6, c);
    LastDigit(f2, f3, d);
    LastDigit(f1, f2, e);
    LastDigit(2 * f1, f1, 0);
    assert f3 / 4 == f5 && f3 % 4 == q;
    Quotients(2 * f1);
  }

  lemma LastDigit(f: nat, high: nat, low: nat)
    requires f == 2 * high + low && low < 2
    ensures f / 2 == high && f % 2 == low
  {
  }

  lemma Quotients(f: nat)
    ensures f / 4 == f / 2 / 2 && f / 8 == f / 2 / 2 / 2 && f / 0x20 == f / 2 / 2 / 2 / 4
    ensures f / 0x40 == f / 0x20 / 2 && f / 0x80 == f / 0x40 / 2
  {
  }

  /** A field in front of other bytes is taken whole. */
  lemma FieldIsTaken(x: seq<byte>, rest: seq<byte>)
    requires |x| < 0x1_0000
    ensures TakeField(Field(x) + rest) == Some((x, rest))
  {
    Be16RoundTrip(|x|);
    var b, n := Field(x) + rest, Be16(|x|);
    assert b[0] == n[0] && b[1] == n[1];
    assert b[2..2 + |x|] == x && b[2 + |x|..] == rest;
  }

  function OptionOf(x: seq<byte>): (f: Option<seq<byte>>) {
    if |x| > 0 then Some(x) else None
  }

  lemma OptionalFieldIsTaken(x: seq<byte>, rest: seq<byte>)
    requires |x| < 0x1_0000
    ensures TakeIf(|x| > 0, OptionalField(x) + rest) == Some((OptionOf(x), rest))
  {
    hide TakeField, Field;
    FieldIsTaken(x, rest);
    assert [] + rest == rest;
  }

  lemma FieldsReadBack(o: Opts, flags: byte, topic: seq<byte>, message: seq<byte>)
    requires o.Ok() && topic == (if o.HasWill() then o.willTopic else []) &&
             message == (if o.HasWill() then o.willMessage else [])
    requires Bit(flags, 0x04) == o.HasWill() && Bit(flags, 0x80) == (|o.user| > 0) && Bit(flags, 0x40) == (|o.pass| > 0)
    ensures ReadFields(Field(o.clientId) + (WillFields(o) + (OptionalField(o.user) + OptionalField(o.pass))), flags) ==
              Some(Fields(o.clientId, OptionOf(topic), OptionOf(message), OptionOf(o.user), OptionOf(o.pass)))
  {
    hide TakeField, TakeIf, Field, OptionalField, Bit;
    var u, p := OptionalField(o.user), OptionalField(o.pass);
    var t, m := OptionalField(topic), OptionalField(message);
    FieldIsTaken(o.clientId, WillFields(o) + (u + p));
    assert WillFields(o) + (u + p) == t + (m + (u + p));
    OptionalFieldIsTaken(topic, m + (u + p));
    OptionalFieldIsTaken(message, u + p);
    OptionalFieldIsTaken(o.user, p);
    OptionalFieldIsTaken(o.pass, []);
    assert p + [] == p;
  }

  lemma FlagsAllowedExactly(o: Opts)
    ensures FlagsAllowed(ConnectFlags(o)) <==> o.Allowed()
  {
    hide ConnectFlags, Bit;
    FlagBits(o);
  }

  /** What was asked for. */
  function Asked(o: Opts): (c: Connection) {
    Connection(o.clean || |o.clientId| == 0, o.qos % 4, o.willRetain, o.keepalive, o.clientId,
               if o.HasWill() then Some(o.willTopic) else None, if o.HasWill() then Some(o.willMessage) else None,
               OptionOf(o.user), OptionOf(o.pass))
  }

  /**
   * The broker reads exactly the client id, will, credentials and options that were
   * given, if and only if their combination is allowed; any other packet, which
   * mg_mqtt_login sends as well, is none.
   */
  lemma ConnectReadsBack(o: Opts)
    requires o.Ok()
    ensures ReadConnect(ConnectBody(o)) == if o.Allowed() then Some(Asked(o)) else None
  {
    hide ReadFields, ConnectFlags, Bit, Field, OptionalField, WillFields, FlagsAllowed;
    FlagBits(o);
    FlagsAllowedExactly(o);
    HeadIsRead(o);
    var topic := if o.HasWill() then o.willTopic else [];
    var message := if o.HasWill() then o.willMessage else [];
    FieldsReadBack(o, ConnectFlags(o), topic, message);
  }

  lemma HeadIsRead(o: Opts)
    requires o.Ok()
    ensures var b := ConnectBody(o);
            && |b| >= 10 && b[..7] == PROTOCOL && b[7] == ConnectFlags(o) && Num16(b, 8) == o.keepalive
            && b[10..] == Field(o.clientId) + (WillFields(o) + (OptionalField(o.user) + OptionalField(o.pass)))
  {
    hide ConnectFlags, Field, WillFields, OptionalField;
    Be16RoundTrip(o.keepalive);
    var b, n := ConnectBody(o), Be16(o.keepalive);
    assert b[8] == n[0] && b[9] == n[1];
  }
}
