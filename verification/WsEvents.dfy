// Everything a WebSocket connection tells its application, in order, and when it
// is to be closed, said without the functions of the receive loop.
module WsEvents {
  import opened Bytes
  import opened WsCodec
  import opened WsStream

  // ------------------------------------------------------------- a single frame

  /** The opcodes of section 5.2 of RFC 6455 that leave a connection open: all that are defined, but close. */
  predicate LeavesOpen(op: nat) {
    op == 0 || op == 1 || op == 2 || op == 9 || op == 10
  }

  /** A frame read into a connection closes it exactly when it is a close frame, or its opcode is not defined. */
  lemma FrameClosesExactly(a: Assembly, flags: byte, data: seq<byte>, m: Masking)
    requires |data| <= MAX_DATA_LEN
    ensures Drain(Rx(a, Wire(flags, data, m))).asm.closing <==> a.closing || !LeavesOpen(flags % 16)
  {
    OneFrameIsDrained(a, flags, data, m);
  }

  lemma OneFrameIsDrained(a: Assembly, flags: byte, data: seq<byte>, m: Masking)
    requires |data| <= MAX_DATA_LEN
    ensures Drain(Rx(a, Wire(flags, data, m))) == Rx(Deliver(a, flags, data), [])
  {
    hide Deliver, Wire, Drain;
    var f := OutFrame(flags, Data(data, m));
    assert WireOf([f]) == Wire(flags, data, m) by {
      assert WireOf([f][1..]) == [];
      assert Wire(flags, data, m) + [] == Wire(flags, data, m);
    }
    assert DeliverAll(a, [f]) == Deliver(a, flags, data) by {
      assert DeliverAll(Deliver(a, flags, data), [f][1..]) == Deliver(a, flags, data);
    }
    DrainWire(a, [f]);
  }

  /** What a frame that gathers or completes no message is reported as. */
  lemma FrameIsReportedExactly(a: Assembly, flags: byte, data: seq<byte>, m: Masking)
    requires |data| <= MAX_DATA_LEN
    ensures var op, log := flags % 16, Drain(Rx(a, Wire(flags, data, m))).asm.log;
            && (op == 8 || op == 10 ==> log == a.log + [Ctl(flags, data)])
            && (op == 9 ==> log == a.log + [Pong(data), Ctl(flags, data)])
            && (op == 1 || op == 2 ==> log == a.log + if flags >= 128 then [Msg(flags, data)] else [])
            && (op == 0 && flags < 128 ==> log == a.log + [Ctl(flags, data)])
            && (3 <= op <= 7 || 11 <= op ==> log == a.log + [UnknownOp(op)])
  {
    OneFrameIsDrained(a, flags, data, m);
  }

  // ----------------------------------------------------------- well-formed streams

  /** The control frames of an item, in the order sent. */
  function ControlsIn(ps: seq<Piece>): (cs: seq<Control>) {
    if ps == [] then [] else ps[0].before + ControlsIn(ps[1..])
  }

  function ControlsOf(item: Item): (cs: seq<Control>) {
    match item
    case Alone(c) => [c]
    case Whole(_, _) => []
    case Fragmented(_, _, middle, last) => ControlsIn(middle) + last.before
  }

  function ControlsOfAll(items: seq<Item>): (cs: seq<Control>) {
    if items == [] then [] else ControlsOf(items[0]) + ControlsOfAll(items[1..])
  }

  predicate HasClose(cs: seq<Control>) {
    exists i :: 0 <= i < |cs| && cs[i].op == 8
  }

  /** A ping is answered, and every control frame is reported. */
  function Reported(cs: seq<Control>): (es: seq<Event>) {
    if cs == [] then []
    else
      (if cs[0].op == 9 then [Pong(cs[0].data.bytes)] else []) + [Ctl(128 + cs[0].op % 16, cs[0].data.bytes)]
      + Reported(cs[1..])
  }

  /** Fragments but the first are reported as they come. */
  function PiecesReported(ps: seq<Piece>, flags: byte): (es: seq<Event>) {
    if ps == [] then []
    else Reported(ps[0].before) + [Ctl(flags, ps[0].data.bytes)] + PiecesReported(ps[1..], flags)
  }

  /** Everything the application is told of an item, a fragmented message after its last fragment. */
  function Told(item: Item): (es: seq<Event>) {
    match item
    case Alone(c) => Reported([c])
    case Whole(flags, data) => [Msg(flags, data.bytes)]
    case Fragmented(flags, first, middle, last) =>
      PiecesReported(middle, 0) + PiecesReported([last], 128)
      + [Msg(flags, first.bytes + Joined(middle) + last.data.bytes)]
  }

  function ToldOfAll(items: seq<Item>): (es: seq<Event>) {
    if items == [] then [] else Told(items[0]) + ToldOfAll(items[1..])
  }

  // -------------------------------------------------------------- the two agree

  /** `a'` gathers `frag`, has told `es` more than `a`, and is to be closed if `a` is or `close` says so. */
  ghost predicate Tells(a: Assembly, a': Assembly, frag: seq<byte>, es: seq<Event>, close: bool) {
    a' == Assembly(frag, a.log + es, a.closing || close)
  }

  lemma TellsThen(a: Assembly, b: Assembly, c: Assembly, f: seq<byte>, g: seq<byte>, es: seq<Event>, fs: seq<Event>,
                  x: bool, y: bool)
    requires Tells(a, b, f, es, x) && Tells(b, c, g, fs, y)
    ensures Tells(a, c, g, es + fs, x || y)
  {
    assert a.log + es + fs == a.log + (es + fs);
  }

  lemma OneTells(a: Assembly, flags: byte, data: seq<byte>)
    ensures flags == 136 || flags == 138 ==>
              Tells(a, Deliver(a, flags, data), a.frag, [Ctl(flags, data)], flags == 136)
    ensures flags == 137 ==> Tells(a, Deliver(a, flags, data), a.frag, [Pong(data), Ctl(flags, data)], false)
    ensures flags >= 128 && (flags % 16 == 1 || flags % 16 == 2) ==>
              Tells(a, Deliver(a, flags, data), a.frag, [Msg(flags, data)], false)
    ensures flags < 128 && (flags % 16 == 1 || flags % 16 == 2) ==>
              Tells(a, Deliver(a, flags, data), a.frag + [flags] + data, [], false)
    ensures flags == 0 ==> Tells(a, Deliver(a, flags, data), a.frag + data, [Ctl(0, data)], false)
    ensures flags == 128 && a.frag != [] ==>
              Tells(a, Deliver(a, flags, data), [], [Ctl(128, data), Msg(a.frag[0], a.frag[1..] + data)], false)
  {
    assert a.log + [] == a.log && a.frag + [] + data == a.frag + data;
    if flags == 128 && a.frag != [] {
      assert (a.frag + data)[1..] == a.frag[1..] + data;
      assert a.log + [Ctl(128, data)] + [Msg(a.frag[0], a.frag[1..] + data)] ==
             a.log + [Ctl(128, data), Msg(a.frag[0], a.frag[1..] + data)];
    }
  }

  lemma CloseHereOrBehind(cs: seq<Control>, ds: seq<Control>)
    ensures HasClose(cs + ds) <==> HasClose(cs) || HasClose(ds)
    ensures cs != [] ==> (HasClose(cs) <==> cs[0].op == 8 || HasClose(cs[1..]))
    ensures !HasClose([])
  {
    assert forall i :: 0 <= i < |cs| ==> (cs + ds)[i] == cs[i];
    assert forall i :: 0 <= i < |ds| ==> (cs + ds)[|cs| + i] == ds[i];
    assert cs != [] ==> forall i :: 0 < i < |cs| ==> cs[i] == cs[1..][i - 1];
    assert cs != [] ==> forall i :: 0 <= i < |cs[1..]| ==> cs[1..][i] == cs[i + 1];
  }

  lemma {:induction false} ControlsTell(a: Assembly, cs: seq<Control>)
    requires ControlsOk(cs)
    ensures Tells(a, DeliverAll(a, ControlFrames(cs)), a.frag, Reported(cs), HasClose(cs))
    decreases |cs|
  {
    hide Deliver, HasClose;
    CloseHereOrBehind(cs, []);
    if cs == [] {
      assert a.log + [] == a.log;
    } else {
      var flags, data := 128 + cs[0].op, cs[0].data.bytes;
      var a1 := Deliver(a, flags, data);
      OneTells(a, flags, data);
      assert ControlFrames(cs)[1..] == ControlFrames(cs[1..]);
      ControlsTell(a1, cs[1..]);
      var es := (if cs[0].op == 9 then [Pong(data)] else []) + [Ctl(flags, data)];
      assert Tells(a, a1, a.frag, es, cs[0].op == 8);
      TellsThen(a, a1, DeliverAll(a1, ControlFrames(cs[1..])), a.frag, a.frag, es, Reported(cs[1..]),
                cs[0].op == 8, HasClose(cs[1..]));
    }
  }

  /** One further fragment, with the control frames in front of it. */
  lemma PieceTells(a: Assembly, p: Piece)
    requires ControlsOk(p.before)
    ensures Tells(a, Deliver(DeliverAll(a, ControlFrames(p.before)), 0, p.data.bytes), a.frag + p.data.bytes,
                  Reported(p.before) + [Ctl(0, p.data.bytes)], HasClose(p.before))
  {
    hide Deliver, HasClose, Reported;
    var a1 := DeliverAll(a, ControlFrames(p.before));
    ControlsTell(a, p.before);
    OneTells(a1, 0, p.data.bytes);
    TellsThen(a, a1, Deliver(a1, 0, p.data.bytes), a.frag, a.frag + p.data.bytes, Reported(p.before),
              [Ctl(0, p.data.bytes)], HasClose(p.before), false);
  }

  lemma {:induction false} PiecesTell(a: Assembly, ps: seq<Piece>)
    requires forall i :: 0 <= i < |ps| ==> ControlsOk(ps[i].before)
    ensures Tells(a, DeliverAll(a, PieceFrames(ps, 0)), a.frag + Joined(ps), PiecesReported(ps, 0),
                  HasClose(ControlsIn(ps)))
    decreases |ps|
  {
    hide Deliver, HasClose, Reported, ControlsOk;
    if ps == [] {
      CloseHereOrBehind([], []);
      assert a.log + [] == a.log && a.frag + [] == a.frag;
    } else {
      var p, rest := ps[0], PieceFrames(ps[1..], 0);
      var a1 := Deliver(DeliverAll(a, ControlFrames(p.before)), 0, p.data.bytes);
      PieceTells(a, p);
      PiecesTell(a1, ps[1..]);
      OneThenRest(a, ControlFrames(p.before), OutFrame(0, p.data), rest);
      assert PieceFrames(ps, 0) == ControlFrames(p.before) + [OutFrame(0, p.data)] + rest;
      CloseHereOrBehind(p.before, ControlsIn(ps[1..]));
      TellsThen(a, a1, DeliverAll(a1, rest), a1.frag, a1.frag + Joined(ps[1..]),
                Reported(p.before) + [Ctl(0, p.data.bytes)], PiecesReported(ps[1..], 0),
                HasClose(p.before), HasClose(ControlsIn(ps[1..])));
      assert a.frag + p.data.bytes + Joined(ps[1..]) == a.frag + Joined(ps);
    }
  }

  lemma FirstTells(a: Assembly, flags: byte, first: Data, middle: seq<Piece>)
    requires flags < 128 && (flags % 16 == 1 || flags % 16 == 2) && a.frag == []
    requires forall i :: 0 <= i < |middle| ==> ControlsOk(middle[i].before)
    ensures Tells(a, DeliverAll(a, [OutFrame(flags, first)] + PieceFrames(middle, 0)),
                  [flags] + (first.bytes + Joined(middle)), PiecesReported(middle, 0), HasClose(ControlsIn(middle)))
  {
    hide Deliver, HasClose;
    var a1 := Deliver(a, flags, first.bytes);
    OneTells(a, flags, first.bytes);
    PiecesTell(a1, middle);
    assert [] + [flags] + first.bytes + Joined(middle) == [flags] + (first.bytes + Joined(middle));
    OneThenRest(a, [], OutFrame(flags, first), PieceFrames(middle, 0));
    assert [] + [OutFrame(flags, first)] + PieceFrames(middle, 0) == [OutFrame(flags, first)] + PieceFrames(middle, 0);
    TellsThen(a, a1, DeliverAll(a1, PieceFrames(middle, 0)), a1.frag, [flags] + (first.bytes + Joined(middle)), [],
              PiecesReported(middle, 0), false, HasClose(ControlsIn(middle)));
    assert [] + PiecesReported(middle, 0) == PiecesReported(middle, 0);
  }

  lemma LastTells(a: Assembly, flags: byte, gathered: seq<byte>, last: Piece)
    requires a.frag == [flags] + gathered && ControlsOk(last.before)
    ensures Tells(a, DeliverAll(a, PieceFrames([last], 128)), [],
                  PiecesReported([last], 128) + [Msg(flags, gathered + last.data.bytes)], HasClose(last.before))
  {
    hide Deliver, HasClose, Reported;
    var controls, data := ControlFrames(last.before), last.data.bytes;
    var a1 := DeliverAll(a, controls);
    var m := Msg(flags, gathered + data);
    ControlsTell(a, last.before);
    OneTells(a1, 128, data);
    assert a1.frag[1..] == gathered;
    assert PieceFrames([last], 128) == controls + [OutFrame(128, last.data)] + PieceFrames([last][1..], 128);
    OneThenRest(a, controls, OutFrame(128, last.data), []);
    TellsThen(a, a1, Deliver(a1, 128, data), a.frag, [], Reported(last.before), [Ctl(128, data), m],
              HasClose(last.before), false);
    assert PiecesReported([last], 128) == Reported(last.before) + [Ctl(128, data)] + PiecesReported([last][1..], 128);
    assert Reported(last.before) + [Ctl(128, data), m] == PiecesReported([last], 128) + [m];
  }

  /** One item: everything is told in order, and the connection is to be closed exactly by a close frame. */
  lemma ItemTells(a: Assembly, item: Item)
    requires ItemOk(item) && a.frag == []
    ensures Tells(a, DeliverAll(a, FramesOf(item)), [], Told(item), HasClose(ControlsOf(item)))
  {
    hide Deliver, HasClose;
    match item
    case Alone(c) =>
      ControlsTell(a, [c]);
      assert ControlFrames([c]) == [c.Frame()] + ControlFrames([c][1..]) == [c.Frame()];
    case Whole(flags, data) =>
      OneTells(a, flags, data.bytes);
      CloseHereOrBehind([], []);
      OneThenRest(a, [], OutFrame(flags, data), []);
      assert [] + [OutFrame(flags, data)] + [] == [OutFrame(flags, data)];
    case Fragmented(_, _, _, _) => FragmentedTells(a, item);
  }

  lemma FragmentedTells(a: Assembly, item: Item)
    requires ItemOk(item) && item.Fragmented? && a.frag == []
    ensures Tells(a, DeliverAll(a, FramesOf(item)), [], Told(item), HasClose(ControlsOf(item)))
  {
    hide Deliver, DeliverAll, HasClose, PieceFrames, PiecesReported, ControlsIn, Joined;
    var Fragmented(flags, first, middle, last) := item;
    var fs, ls := [OutFrame(flags, first)] + PieceFrames(middle, 0), PieceFrames([last], 128);
    var gathered, b, c := first.bytes + Joined(middle), DeliverAll(a, fs), DeliverAll(a, fs + ls);
    var m, es, gs := Msg(flags, gathered + last.data.bytes), PiecesReported(middle, 0), PiecesReported([last], 128);
    FirstTells(a, flags, first, middle);
    LastTells(b, flags, gathered, last);
    DeliverThen(a, fs, ls);
    TellsThen(a, b, c, [flags] + gathered, [], es, gs + [m], HasClose(ControlsIn(middle)), HasClose(last.before));
    CloseHereOrBehind(ControlsIn(middle), last.before);
    assert es + (gs + [m]) == es + gs + [m];
  }

  lemma {:induction false} ItemsTell(a: Assembly, items: seq<Item>)
    requires (forall i :: 0 <= i < |items| ==> ItemOk(items[i])) && a.frag == []
    ensures Tells(a, DeliverAll(a, FramesOfAll(items)), [], ToldOfAll(items), HasClose(ControlsOfAll(items)))
    decreases |items|
  {
    hide Deliver, FramesOf, Told, ControlsOf, HasClose;
    if items == [] {
      CloseHereOrBehind([], []);
      assert a.log + [] == a.log;
    } else {
      var b := DeliverAll(a, FramesOf(items[0]));
      ItemTells(a, items[0]);
      DeliverThen(a, FramesOf(items[0]), FramesOfAll(items[1..]));
      ItemsTell(b, items[1..]);
      CloseHereOrBehind(ControlsOf(items[0]), ControlsOfAll(items[1..]));
      TellsThen(a, b, DeliverAll(b, FramesOfAll(items[1..])), [], [], Told(items[0]), ToldOfAll(items[1..]),
                HasClose(ControlsOf(items[0])), HasClose(ControlsOfAll(items[1..])));
    }
  }

  /**
   * For every well-formed stream, masking and cut: the application is told exactly this, in this
   * order, and the connection is to be closed if and only if there is a close frame among the control
   * frames sent.
   */
  lemma EverythingIsToldInOrder(items: seq<Item>, chunks: seq<seq<byte>>)
    requires forall i :: 0 <= i < |items| ==> ItemOk(items[i])
    requires InLimits(FramesOfAll(items))
    requires Concat(chunks) == WireOf(FramesOfAll(items))
    ensures var rx := ReceiveAll(Rx(Assembly([], [], false), []), chunks);
            && rx.asm.log == ToldOfAll(items)
            && (rx.asm.closing <==> HasClose(ControlsOfAll(items)))
  {
    hide Deliver, Process, HasClose;
    var a := Assembly([], [], false);
    NothingIsIncomplete();
    CuttingIsIrrelevant(Rx(a, []), chunks);
    assert [] + Concat(chunks) == Concat(chunks);
    DrainWire(a, FramesOfAll(items));
    ItemsTell(a, items);
    assert [] + ToldOfAll(items) == ToldOfAll(items);
  }
}
