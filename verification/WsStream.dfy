// The WebSocket receive side on byte sequences: what mg_ws_cb makes of a stream
// of frames, however the stream is cut into reads.
module WsStream {
  import opened Bytes
  import opened WsCodec

  /** What mg_ws_cb does towards the application and the peer. */
  datatype Event =
    | Ctl(flags: byte, data: seq<byte>)
    | Msg(flags: byte, data: seq<byte>)
    | Pong(data: seq<byte>)
    | UnknownOp(op: byte)
    | Overrun   // a final continuation with no data and nothing gathered: the message's length wraps around

  /** The gathered fragments (flags first), the events so far, and whether the connection is to be closed. */
  datatype Assembly = Assembly(frag: seq<byte>, log: seq<Event>, closing: bool)

  /** The receive side of a connection: gathered fragments, then bytes not yet understood. */
  datatype Rx = Rx(asm: Assembly, pending: seq<byte>)

  function OpEvents(flags: byte, data: seq<byte>): (es: seq<Event>) {
    var op := flags % 16;
    if op == 0 || op == 10 || op == 8 then [Ctl(flags, data)]
    else if op == 9 then [Pong(data), Ctl(flags, data)]
    else if op == 1 || op == 2 then if flags >= 128 then [Msg(flags, data)] else []
    else [UnknownOp(op)]
  }

  predicate Closes(flags: byte) {
    flags % 16 == 8 || 3 <= flags % 16 <= 7 || flags % 16 > 10
  }

  /** One complete frame. */
  function Deliver(a: Assembly, flags: byte, data: seq<byte>): (a': Assembly) {
    var fin, op := flags >= 128, flags % 16;
    var log, closing := a.log + OpEvents(flags, data), a.closing || Closes(flags);
    if op != 0 && fin then Assembly(a.frag, log, closing)
    else
      var frag := a.frag + (if op != 0 then [flags] else []) + data;
      if !fin then Assembly(frag, log, closing)
      else Assembly([], log + [if frag == [] then Overrun else Msg(frag[0], frag[1..])], closing)
  }

  /** All complete frames. */
  function Drain(rx: Rx): (rx': Rx)
    decreases |rx.pending|
  {
    match Process(rx.pending)
    case Incomplete => rx
    case Frame(flags, h, data) => Drain(Rx(Deliver(rx.asm, flags, data), rx.pending[h + |data|..]))
  }

  function Receive(rx: Rx, chunk: seq<byte>): (rx': Rx) {
    Drain(rx.(pending := rx.pending + chunk))
  }

  function ReceiveAll(rx: Rx, chunks: seq<seq<byte>>): (rx': Rx)
    decreases |chunks|
  {
    if chunks == [] then rx else ReceiveAll(Receive(rx, chunks[0]), chunks[1..])
  }

  // ---------------------------------------------- any way of cutting the stream

  function Extend(rx: Rx, more: seq<byte>): (rx': Rx) {
    rx.(pending := rx.pending + more)
  }

  /** Bytes that arrive later find the same frames delivered as if they had been there from the start. */
  lemma {:induction false} DrainThenMore(rx: Rx, more: seq<byte>)
    ensures Drain(Extend(rx, more)) == Drain(Extend(Drain(rx), more))
    decreases |rx.pending|
  {
    hide Process, Deliver;
    var p := Process(rx.pending);
    if p.Frame? {
      MoreBytesChangeNothing(rx.pending, more);
      var next := Rx(Deliver(rx.asm, p.flags, p.payload), rx.pending[p.Total()..]);
      assert (rx.pending + more)[p.Total()..] == next.pending + more;
      DrainThenMore(next, more);
    }
  }

  lemma {:induction false} DrainIsDrained(rx: Rx)
    ensures Process(Drain(rx).pending).Incomplete?
    decreases |rx.pending|
  {
    hide Process, Deliver;
    var p := Process(rx.pending);
    if p.Frame? {
      DrainIsDrained(Rx(Deliver(rx.asm, p.flags, p.payload), rx.pending[p.Total()..]));
    }
  }

  /** However the bytes are cut into reads, the outcome is that of one read of them all. */
  lemma {:induction false} CuttingIsIrrelevant(rx: Rx, chunks: seq<seq<byte>>)
    requires Process(rx.pending).Incomplete?
    ensures ReceiveAll(rx, chunks) == Drain(Extend(rx, Concat(chunks)))
    decreases |chunks|
  {
    hide Process, Deliver;
    if chunks == [] {
      assert Extend(rx, []) == rx;
    } else {
      var c, rest := chunks[0], Concat(chunks[1..]);
      DrainIsDrained(Extend(rx, c));
      CuttingIsIrrelevant(Receive(rx, c), chunks[1..]);
      DrainThenMore(Extend(rx, c), rest);
      assert rx.pending + c + rest == rx.pending + (c + rest);
    }
  }

  // ------------------------------------------------- fragments without a first frame

  /** Continuation frames that are not final, one after the other. */
  function Continue(a: Assembly, ds: seq<seq<byte>>): (a': Assembly)
    decreases |ds|
  {
    if ds == [] then a else Continue(Deliver(a, 0, ds[0]), ds[1..])
  }

  lemma {:induction false} ContinueGathers(a: Assembly, ds: seq<seq<byte>>)
    ensures Continue(a, ds).frag == a.frag + Concat(ds)
    decreases |ds|
  {
    if ds == [] {
      assert a.frag + [] == a.frag;
    } else {
      ContinueGathers(Deliver(a, 0, ds[0]), ds[1..]);
      assert a.frag + [] + ds[0] == a.frag + ds[0];
      ConcatAssociates(a.frag, ds[0], Concat(ds[1..]));
    }
  }

  /**
   * The message that a final continuation delivers has all the octets sent if and only if something
   * was gathered before these continuations; otherwise the first octet is taken for the flags, and
   * without any octet there is no message of any length.
   */
  lemma FirstOctetIsKeptExactly(a: Assembly, ds: seq<seq<byte>>, last: seq<byte>)
    ensures var sent, log := Concat(ds) + last, Deliver(Continue(a, ds), 128, last).log;
            && log != []
            && (a.frag != [] ==> log[|log| - 1] == Msg(a.frag[0], a.frag[1..] + sent))
            && (a.frag == [] ==> log[|log| - 1] == if sent == [] then Overrun else Msg(sent[0], sent[1..]))
            && (a.frag != [] <==>
                  log[|log| - 1].Msg? && log[|log| - 1].data == (if a.frag == [] then [] else a.frag[1..]) + sent)
  {
    ContinueGathers(a, ds);
    var sent := Concat(ds) + last;
    hide Concat, Continue;
    assert a.frag + Concat(ds) + [] + last == a.frag + sent;
    if a.frag == [] {
      assert a.frag + sent == sent && [] + sent == sent;
      assert sent != [] ==> |sent[1..]| != |sent|;
    } else {
      assert (a.frag + sent)[1..] == a.frag[1..] + sent;
    }
  }

  // ------------------------------------------------- well-formed frame streams

  /** A payload and how its frame is masked. */
  datatype Data = Data(bytes: seq<byte>, masking: Masking)

  datatype OutFrame = OutFrame(flags: byte, data: Data)

  /** A close, ping or pong frame: never fragmented (section 5.5 of RFC 6455). */
  datatype Control = Control(op: byte, data: Data)
  {
    predicate Ok() { op == 8 || op == 9 || op == 10 }
    function Frame(): OutFrame requires Ok() { OutFrame(128 + op, data) }
  }

  /** A further fragment, with the control frames sent in front of it. */
  datatype Piece = Piece(before: seq<Control>, data: Data)

  /** What a peer sends: control frames between messages, unfragmented and fragmented messages (section 5.4). */
  datatype Item =
    | Alone(control: Control)
    | Whole(flags: byte, data: Data)
    | Fragmented(flags: byte, first: Data, middle: seq<Piece>, last: Piece)

  ghost predicate ControlsOk(cs: seq<Control>) {
    forall i :: 0 <= i < |cs| ==> cs[i].Ok()
  }

  ghost predicate ItemOk(item: Item) {
    match item
    case Alone(c) => c.Ok()
    case Whole(flags, _) => flags >= 128 && (flags % 16 == 1 || flags % 16 == 2)
    case Fragmented(flags, _, middle, last) =>
      && flags < 128 && (flags % 16 == 1 || flags % 16 == 2)
      && (forall i :: 0 <= i < |middle| ==> ControlsOk(middle[i].before))
      && ControlsOk(last.before)
  }

  function ControlFrames(cs: seq<Control>): (fs: seq<OutFrame>)
    requires ControlsOk(cs)
  {
    if cs == [] then [] else [cs[0].Frame()] + ControlFrames(cs[1..])
  }

  function PieceFrames(ps: seq<Piece>, flags: byte): (fs: seq<OutFrame>)
    requires forall i :: 0 <= i < |ps| ==> ControlsOk(ps[i].before)
  {
    if ps == [] then []
    else ControlFrames(ps[0].before) + [OutFrame(flags, ps[0].data)] + PieceFrames(ps[1..], flags)
  }

  function FramesOf(item: Item): (fs: seq<OutFrame>)
    requires ItemOk(item)
  {
    match item
    case Alone(c) => [c.Frame()]
    case Whole(flags, data) => [OutFrame(flags, data)]
    case Fragmented(flags, first, middle, last) =>
      [OutFrame(flags, first)] + PieceFrames(middle, 0) + PieceFrames([last], 128)
  }

  function FramesOfAll(items: seq<Item>): (fs: seq<OutFrame>)
    requires forall i :: 0 <= i < |items| ==> ItemOk(items[i])
  {
    if items == [] then [] else FramesOf(items[0]) + FramesOfAll(items[1..])
  }

  function WireOf(fs: seq<OutFrame>): (w: seq<byte>) {
    if fs == [] then []
    else Wire(fs[0].flags, fs[0].data.bytes, fs[0].data.masking) + WireOf(fs[1..])
  }

  /** The payload of a message: its fragments one after the other. */
  function Joined(ps: seq<Piece>): (s: seq<byte>) {
    if ps == [] then [] else ps[0].data.bytes + Joined(ps[1..])
  }

  /** The messages the application is owed. */
  function MessagesOf(item: Item): (ms: seq<Event>) {
    match item
    case Alone(_) => []
    case Whole(flags, data) => [Msg(flags, data.bytes)]
    case Fragmented(flags, first, middle, last) => [Msg(flags, first.bytes + Joined(middle) + last.data.bytes)]
  }

  function MessagesOfAll(items: seq<Item>): (ms: seq<Event>) {
    if items == [] then [] else MessagesOf(items[0]) + MessagesOfAll(items[1..])
  }

  /** The pongs the peer is owed: one for each ping, with its payload. */
  function PongsFor(cs: seq<Control>): (es: seq<Event>) {
    if cs == [] then [] else (if cs[0].op == 9 then [Pong(cs[0].data.bytes)] else []) + PongsFor(cs[1..])
  }

  function PongsForPieces(ps: seq<Piece>): (es: seq<Event>) {
    if ps == [] then [] else PongsFor(ps[0].before) + PongsForPieces(ps[1..])
  }

  function PongsOf(item: Item): (es: seq<Event>) {
    match item
    case Alone(c) => PongsFor([c])
    case Whole(_, _) => []
    case Fragmented(_, _, middle, last) => PongsForPieces(middle) + PongsFor(last.before)
  }

  function PongsOfAll(items: seq<Item>): (es: seq<Event>) {
    if items == [] then [] else PongsOf(items[0]) + PongsOfAll(items[1..])
  }

  /** The events of one kind in a log. */
  function Messages(log: seq<Event>): (ms: seq<Event>) {
    if log == [] then [] else (if log[0].Msg? || log[0].Overrun? then [log[0]] else []) + Messages(log[1..])
  }

  function Pongs(log: seq<Event>): (ps: seq<Event>) {
    if log == [] then [] else (if log[0].Pong? then [log[0]] else []) + Pongs(log[1..])
  }

  lemma {:induction false} MessagesAppend(a: seq<Event>, b: seq<Event>)
    ensures Messages(a + b) == Messages(a) + Messages(b)
  {
    if a == [] {
      assert a + b == b;
    } else {
      MessagesAppend(a[1..], b);
      assert (a + b)[0] == a[0] && (a + b)[1..] == a[1..] + b;
      ConcatAssociates(if a[0].Msg? || a[0].Overrun? then [a[0]] else [], Messages(a[1..]), Messages(b));
    }
  }

  lemma {:induction false} PongsAppend(a: seq<Event>, b: seq<Event>)
    ensures Pongs(a + b) == Pongs(a) + Pongs(b)
  {
    if a == [] {
      assert a + b == b;
    } else {
      PongsAppend(a[1..], b);
      assert (a + b)[0] == a[0] && (a + b)[1..] == a[1..] + b;
      ConcatAssociates(if a[0].Pong? then [a[0]] else [], Pongs(a[1..]), Pongs(b));
    }
  }

  // -------------------------------------------------- frames are taken one by one

  function DeliverAll(a: Assembly, fs: seq<OutFrame>): (a': Assembly)
    decreases |fs|
  {
    if fs == [] then a else DeliverAll(Deliver(a, fs[0].flags, fs[0].data.bytes), fs[1..])
  }

  lemma {:induction false} DeliverThen(a: Assembly, fs: seq<OutFrame>, gs: seq<OutFrame>)
    ensures DeliverAll(a, fs + gs) == DeliverAll(DeliverAll(a, fs), gs)
    decreases |fs|
  {
    hide Deliver;
    if fs == [] {
      assert fs + gs == gs;
    } else {
      assert (fs + gs)[1..] == fs[1..] + gs;
      DeliverThen(Deliver(a, fs[0].flags, fs[0].data.bytes), fs[1..], gs);
    }
  }

  ghost predicate InLimits(fs: seq<OutFrame>) {
    forall i :: 0 <= i < |fs| ==> |fs[i].data.bytes| <= MAX_DATA_LEN
  }

  /** Draining a wire delivers its frames and leaves nothing behind. */
  lemma {:induction false} DrainWire(a: Assembly, fs: seq<OutFrame>)
    requires InLimits(fs)
    ensures Drain(Rx(a, WireOf(fs))) == Rx(DeliverAll(a, fs), [])
    decreases |fs|
  {
    hide Process, Deliver, Wire, Header;
    if fs == [] {
      assert Process([]) == Incomplete by { NothingIsIncomplete(); }
    } else {
      var f, rest := fs[0], WireOf(fs[1..]);
      var w := Wire(f.flags, f.data.bytes, f.data.masking);
      RoundTrip(f.flags, f.data.bytes, f.data.masking, rest);
      WireLength(f.flags, f.data.bytes, f.data.masking);
      assert (w + rest)[|w|..] == rest;
      DrainWire(Deliver(a, f.flags, f.data.bytes), fs[1..]);
    }
  }

  lemma NothingIsIncomplete()
    ensures Process([]) == Incomplete
  {
  }

  lemma WireLength(flags: byte, data: seq<byte>, m: Masking)
    ensures |Wire(flags, data, m)| == |Header(flags, |data|, m)| + |data|
  {
  }

  // ------------------------------------------------------ messages are delivered

  /** `a'` gathers `frag`, and has delivered the messages `ms` and the pongs `ps` more than `a`. */
  ghost predicate Progress(a: Assembly, a': Assembly, frag: seq<byte>, ms: seq<Event>, ps: seq<Event>) {
    && a'.frag == frag
    && Messages(a'.log) == Messages(a.log) + ms
    && Pongs(a'.log) == Pongs(a.log) + ps
  }

  lemma ProgressThen(a: Assembly, b: Assembly, c: Assembly, f: seq<byte>, g: seq<byte>,
                     ms: seq<Event>, ps: seq<Event>, ns: seq<Event>, qs: seq<Event>)
    requires Progress(a, b, f, ms, ps) && Progress(b, c, g, ns, qs)
    ensures Progress(a, c, g, ms + ns, ps + qs)
  {
  }

  /** What a single frame does. */
  lemma DeliverOne(a: Assembly, flags: byte, data: seq<byte>)
    ensures flags == 136 || flags == 138 ==> Progress(a, Deliver(a, flags, data), a.frag, [], [])
    ensures flags == 137 ==> Progress(a, Deliver(a, flags, data), a.frag, [], [Pong(data)])
    ensures flags >= 128 && (flags % 16 == 1 || flags % 16 == 2) ==>
              Progress(a, Deliver(a, flags, data), a.frag, [Msg(flags, data)], [])
    ensures flags < 128 && (flags % 16 == 1 || flags % 16 == 2) ==>
              Progress(a, Deliver(a, flags, data), a.frag + [flags] + data, [], [])
    ensures flags == 0 ==> Progress(a, Deliver(a, flags, data), a.frag + data, [], [])
    ensures flags == 128 && a.frag != [] ==>
              Progress(a, Deliver(a, flags, data), [], [Msg(a.frag[0], a.frag[1..] + data)], [])
  {
    hide Messages, Pongs, OpEvents;
    var es := OpEvents(flags, data);
    ShortLogs(flags, data);
    MessagesAppend(a.log, es);
    PongsAppend(a.log, es);
    assert a.frag + [] + data == a.frag + data;
    if flags == 128 && a.frag != [] {
      LastFragment(a, data);
    }
  }

  lemma LastFragment(a: Assembly, data: seq<byte>)
    requires a.frag != []
    ensures Progress(a, Deliver(a, 128, data), [], [Msg(a.frag[0], a.frag[1..] + data)], [])
  {
    hide Messages, Pongs, OpEvents;
    var es, m := OpEvents(128, data), Msg(a.frag[0], a.frag[1..] + data);
    ShortLogs(128, data);
    assert (a.frag + [] + data)[1..] == a.frag[1..] + data;
    MessagesAppend(a.log, es);
    PongsAppend(a.log, es);
    MessagesAppend(a.log + es, [m]);
    PongsAppend(a.log + es, [m]);
    OneMessage(m);
  }

  lemma OneMessage(m: Event)
    requires m.Msg?
    ensures Messages([m]) == [m] && Pongs([m]) == []
  {
    assert [m][1..] == [];
  }

  lemma ShortLogs(flags: byte, data: seq<byte>)
    ensures var es := OpEvents(flags, data);
            && Messages(es) == (if flags >= 128 && (flags % 16 == 1 || flags % 16 == 2) then [Msg(flags, data)] else [])
            && Pongs(es) == (if flags % 16 == 9 then [Pong(data)] else [])
  {
    var es := OpEvents(flags, data);
    if es != [] {
      assert Messages(es[1..]) == [] && Pongs(es[1..]) == [] by {
        if |es| == 2 {
          assert es[1..] == [Ctl(flags, data)];
          assert Messages(es[1..][1..]) == [] && Pongs(es[1..][1..]) == [];
        }
      }
    }
  }

  lemma {:induction false} DeliverControls(a: Assembly, cs: seq<Control>)
    requires ControlsOk(cs)
    ensures Progress(a, DeliverAll(a, ControlFrames(cs)), a.frag, [], PongsFor(cs))
    decreases |cs|
  {
    hide Deliver, Messages, Pongs;
    if cs != [] {
      var a1 := Deliver(a, 128 + cs[0].op, cs[0].data.bytes);
      DeliverOne(a, 128 + cs[0].op, cs[0].data.bytes);
      assert ControlFrames(cs)[1..] == ControlFrames(cs[1..]);
      DeliverControls(a1, cs[1..]);
      var d := if cs[0].op == 9 then [Pong(cs[0].data.bytes)] else [];
      assert Progress(a, a1, a.frag, [], d);
      ProgressThen(a, a1, DeliverAll(a1, ControlFrames(cs[1..])), a.frag, a.frag, [], d, [], PongsFor(cs[1..]));
      assert [] + PongsFor(cs[1..]) == PongsFor(cs[1..]);
    } else {
      assert DeliverAll(a, ControlFrames(cs)) == a;
    }
  }

  lemma {:induction false} DeliverPieces(a: Assembly, ps: seq<Piece>)
    requires forall i :: 0 <= i < |ps| ==> ControlsOk(ps[i].before)
    ensures Progress(a, DeliverAll(a, PieceFrames(ps, 0)), a.frag + Joined(ps), [], PongsForPieces(ps))
    decreases |ps|
  {
    hide Deliver, Messages, Pongs;
    if ps != [] {
      var controls, data := ControlFrames(ps[0].before), ps[0].data;
      var a1 := DeliverAll(a, controls);
      var a2 := Deliver(a1, 0, data.bytes);
      DeliverControls(a, ps[0].before);
      DeliverOne(a1, 0, data.bytes);
      DeliverPieces(a2, ps[1..]);
      OneThenRest(a, controls, OutFrame(0, data), PieceFrames(ps[1..], 0));
      assert a.frag + data.bytes + Joined(ps[1..]) == a.frag + Joined(ps);
      assert PieceFrames(ps, 0) == controls + [OutFrame(0, data)] + PieceFrames(ps[1..], 0);
    }
  }

  /** Delivering some frames, one more, and the rest. */
  lemma OneThenRest(a: Assembly, before: seq<OutFrame>, f: OutFrame, after: seq<OutFrame>)
    ensures DeliverAll(a, before + [f] + after) ==
            DeliverAll(Deliver(DeliverAll(a, before), f.flags, f.data.bytes), after)
  {
    hide Deliver;
    DeliverThen(a, before + [f], after);
    DeliverThen(a, before, [f]);
    var b := DeliverAll(a, before);
    assert DeliverAll(b, [f]) == DeliverAll(Deliver(b, f.flags, f.data.bytes), [f][1..]);
  }

  /** One item: between items nothing is gathered, and the item's messages and pongs come out. */
  lemma DeliverItem(a: Assembly, item: Item)
    requires ItemOk(item) && a.frag == []
    ensures Progress(a, DeliverAll(a, FramesOf(item)), [], MessagesOf(item), PongsOf(item))
  {
    hide Deliver, Messages, Pongs;
    match item
    case Alone(c) =>
      DeliverControls(a, [c]);
      assert ControlFrames([c]) == [c.Frame()] + ControlFrames([c][1..]) == [c.Frame()];
    case Whole(flags, data) =>
      DeliverOne(a, flags, data.bytes);
      OneThenRest(a, [], OutFrame(flags, data), []);
      assert [] + [OutFrame(flags, data)] + [] == [OutFrame(flags, data)];
    case Fragmented(flags, first, middle, last) =>
      DeliverFragmented(a, item);
  }

  /** Up to its last fragment, a fragmented message is gathered behind its flags. */
  lemma GatherFragments(a: Assembly, flags: byte, first: Data, middle: seq<Piece>)
    requires flags < 128 && (flags % 16 == 1 || flags % 16 == 2) && a.frag == []
    requires forall i :: 0 <= i < |middle| ==> ControlsOk(middle[i].before)
    ensures Progress(a, DeliverAll(a, [OutFrame(flags, first)] + PieceFrames(middle, 0)),
                     [flags] + (first.bytes + Joined(middle)), [], PongsForPieces(middle))
  {
    hide Deliver, Messages, Pongs;
    var a1 := Deliver(a, flags, first.bytes);
    DeliverOne(a, flags, first.bytes);
    DeliverPieces(a1, middle);
    assert [] + [flags] + first.bytes + Joined(middle) == [flags] + (first.bytes + Joined(middle));
    OneThenRest(a, [], OutFrame(flags, first), PieceFrames(middle, 0));
    assert [] + [OutFrame(flags, first)] + PieceFrames(middle, 0) == [OutFrame(flags, first)] + PieceFrames(middle, 0);
  }

  /** The last fragment completes it. */
  lemma DeliverLast(a: Assembly, flags: byte, gathered: seq<byte>, last: Piece)
    requires a.frag == [flags] + gathered && ControlsOk(last.before)
    ensures Progress(a, DeliverAll(a, PieceFrames([last], 128)), [],
                     [Msg(flags, gathered + last.data.bytes)], PongsFor(last.before))
  {
    hide Deliver, Messages, Pongs;
    var controls := ControlFrames(last.before);
    var a1 := DeliverAll(a, controls);
    DeliverControls(a, last.before);
    DeliverOne(a1, 128, last.data.bytes);
    assert a1.frag[1..] == gathered;
    assert PieceFrames([last], 128) == controls + [OutFrame(128, last.data)] + PieceFrames([last][1..], 128);
    OneThenRest(a, controls, OutFrame(128, last.data), []);
  }

  lemma DeliverFragmented(a: Assembly, item: Item)
    requires ItemOk(item) && item.Fragmented? && a.frag == []
    ensures Progress(a, DeliverAll(a, FramesOf(item)), [], MessagesOf(item), PongsOf(item))
  {
    hide Deliver, DeliverAll, Messages, Pongs, PieceFrames, PongsFor, PongsForPieces, Joined;
    var Fragmented(flags, first, middle, last) := item;
    var fs, ls := [OutFrame(flags, first)] + PieceFrames(middle, 0), PieceFrames([last], 128);
    var gathered, b, c := first.bytes + Joined(middle), DeliverAll(a, fs), DeliverAll(a, fs + ls);
    var m := Msg(flags, gathered + last.data.bytes);
    GatherFragments(a, flags, first, middle);
    DeliverLast(b, flags, gathered, last);
    DeliverThen(a, fs, ls);
    ProgressThen(a, b, c, [flags] + gathered, [], [], PongsForPieces(middle), [m], PongsFor(last.before));
    assert [] + [m] == [m];
  }

  lemma {:induction false} DeliverItems(a: Assembly, items: seq<Item>)
    requires (forall i :: 0 <= i < |items| ==> ItemOk(items[i])) && a.frag == []
    ensures Progress(a, DeliverAll(a, FramesOfAll(items)), [], MessagesOfAll(items), PongsOfAll(items))
    decreases |items|
  {
    hide Deliver, Messages, Pongs, FramesOf, MessagesOf, PongsOf;
    if items != [] {
      DeliverItem(a, items[0]);
      DeliverThen(a, FramesOf(items[0]), FramesOfAll(items[1..]));
      DeliverItems(DeliverAll(a, FramesOf(items[0])), items[1..]);
    }
  }

  /**
   * For every well-formed stream of frames, however each frame is masked and
   * however the bytes are cut into reads: each message is delivered exactly once
   * and in order, a fragmented one as the concatenation of its fragments under
   * the flags of the first; each ping is answered; and nothing is left behind.
   */
  lemma EveryMessageIsDeliveredOnce(items: seq<Item>, chunks: seq<seq<byte>>)
    requires forall i :: 0 <= i < |items| ==> ItemOk(items[i])
    requires InLimits(FramesOfAll(items))
    requires Concat(chunks) == WireOf(FramesOfAll(items))
    ensures var rx := ReceiveAll(Rx(Assembly([], [], false), []), chunks);
            && Messages(rx.asm.log) == MessagesOfAll(items)
            && Pongs(rx.asm.log) == PongsOfAll(items)
            && rx.asm.frag == [] && rx.pending == []
  {
    hide Deliver, Process;
    var a := Assembly([], [], false);
    assert Process([]) == Incomplete by { NothingIsIncomplete(); }
    CuttingIsIrrelevant(Rx(a, []), chunks);
    assert [] + Concat(chunks) == Concat(chunks);
    DrainWire(a, FramesOfAll(items));
    DeliverItems(a, items);
  }
}
