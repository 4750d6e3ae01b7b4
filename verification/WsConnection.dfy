// The receive loop of components/mongoose/src/ws.c: frames are taken off the
// receive buffer, fragments are gathered at its front behind the first
// fragment's flags, and what is left waits for more bytes.
module WsConnection {
  import opened Bytes
  import opened IoBuf
  import opened WsCodec
  import opened WsFrames
  import opened WsStream

  class Connection {
    const recv: Buffer
    var pfnData: nat
    var isClosing: bool
    ghost var log: seq<Event>

    ghost predicate Valid()
      reads this, recv, recv.buf
    {
      recv.Valid() && pfnData <= recv.len
    }

    ghost function Abs(): (rx: Rx)
      requires Valid()
      reads this, recv, recv.buf
    {
      Rx(Assembly(recv.Contents()[..pfnData], log, isClosing), recv.Contents()[pfnData..])
    }

    constructor ()
      ensures Valid() && fresh(recv) && fresh(recv.buf)
      ensures Abs() == Rx(Assembly([], [], false), [])
    {
      recv := new Buffer();
      pfnData, isClosing, log := 0, false, [];
    }

    /** The switch on the opcode. */
    method Dispatch(flags: byte, ghost data: seq<byte>)
      modifies `isClosing, `log
      ensures log == old(log) + OpEvents(flags, data)
      ensures isClosing == (old(isClosing) || Closes(flags))
    {
      match flags % 16
      case 0 => log := log + [Ctl(flags, data)];
      case 9 => log := log + [Pong(data), Ctl(flags, data)];
      case 10 => log := log + [Ctl(flags, data)];
      case 1 => if flags >= 128 { log := log + [Msg(flags, data)]; }
      case 2 => if flags >= 128 { log := log + [Msg(flags, data)]; }
      case 8 =>
        log := log + [Ctl(flags, data)];
        isClosing := true;
      case _ =>
        log := log + [UnknownOp(flags % 16)];
        isClosing := true;
    }

    /**
     * The rest of the loop body: the receive buffer holds gathered fragments, a header, the unmasked
     * data and later bytes.
     */
    method Consume(msg: WsMsg, ghost frag: seq<byte>, ghost hdr: seq<byte>, ghost data: seq<byte>,
        ghost rest: seq<byte>)
      requires recv.Valid() && recv.Contents() == frag + hdr + data + rest
      requires pfnData == |frag| && msg == WsMsg(msg.flags, |hdr|, |data|) && |hdr| >= 2 && hdr[0] == msg.flags
      modifies `pfnData, `log, recv`len, recv.buf
      ensures Valid() && recv.buf == old(recv.buf)
      ensures var fin, op := msg.flags >= 128, msg.flags % 16;
              var gathered := frag + (if op != 0 then [msg.flags] else []) + data;
              if fin && op != 0 then recv.Contents() == frag + rest && pfnData == |frag| && log == old(log)
              else if !fin then recv.Contents() == gathered + rest && pfnData == |gathered| && log == old(log)
              else recv.Contents() == rest && pfnData == 0
                   && log == old(log) + [if gathered == [] then Overrun else Msg(gathered[0], gathered[1..])]
    {
      hide Buffer.Contents, Removed;
      var final, op := msg.flags >= 128, msg.flags % 16;
      var ofs, len, headerLen := pfnData, msg.headerLen + msg.dataLen, msg.headerLen;
      ghost var gathered := frag + (if op != 0 then [msg.flags] else []) + data;
      if !final || op == 0 {
        if op != 0 { ofs, len, headerLen := ofs + 1, len - 1, headerLen - 1; }
        StripHeader(frag, hdr, data, rest, op);
        var _ := recv.Del(ofs, headerLen);
        len := len - headerLen;
        ofs := ofs + len;
        pfnData := ofs;
      }
      if final && op != 0 {
        RemoveMiddle(frag, hdr + data, rest);
        assert frag + hdr + data + rest == frag + (hdr + data) + rest;
        var _ := recv.Del(ofs, len);
      }
      if final && op == 0 {
        LastChunk(gathered, rest);
      }
    }

    /** The end of a fragmented message: what is gathered is delivered and removed. */
    method LastChunk(ghost gathered: seq<byte>, ghost rest: seq<byte>)
      requires recv.Valid() && recv.Contents() == gathered + rest && pfnData == |gathered|
      modifies `pfnData, `log, recv`len, recv.buf
      ensures Valid() && recv.buf == old(recv.buf)
      ensures recv.Contents() == rest && pfnData == 0
      ensures log == old(log) + [if gathered == [] then Overrun else Msg(gathered[0], gathered[1..])]
    {
      hide Buffer.Contents, Removed;
      var ofs := pfnData;
      assert gathered == (gathered + rest)[..ofs];
      log := log + [if ofs == 0 then Overrun else Msg(recv.Contents()[0], recv.Contents()[1..ofs])];
      RemoveMiddle([], gathered, rest);
      assert gathered + rest == [] + gathered + rest && [] + rest == rest;
      var _ := recv.Del(0, ofs);
      pfnData := 0;
    }

    /** ws_process on the bytes behind the gathered fragments. */
    method ParseFrame() returns (total: nat, msg: WsMsg)
      requires Valid()
      modifies recv.buf
      ensures Valid()
      ensures var rx, f := old(Abs()), Process(old(Abs()).pending);
              && total == f.Total() && (total > 0 ==> f.Frame? && msg == WsMsg(f.flags, f.hdr, |f.payload|))
              && recv.Contents() == if total == 0 then old(recv.Contents())
                                    else rx.asm.frag + rx.pending[..f.hdr] + f.payload + rx.pending[total..]
    {
      hide Process, Mask, Lengths, Splice, Buffer.Contents, Buffer.Valid;
      ghost var s, rx := recv.Contents(), Abs();
      ghost var frag, buf := s[..pfnData], s[pfnData..];
      Halves(s, pfnData);
      assert rx.asm.frag == frag && rx.pending == buf;
      total, msg := ParseBuffer(recv, pfnData, frag, buf);
      ghost var f := Process(buf);
      if total > 0 {
        SpliceBehind(frag, buf, f.hdr, f.payload);
      }
    }

    /** A complete frame, unmasked in place: its callback, and what it leaves in the receive buffer. */
    method TakeUnmasked(msg: WsMsg, ghost frag: seq<byte>, ghost hdr: seq<byte>, ghost data: seq<byte>,
        ghost rest: seq<byte>)
      requires recv.Valid() && recv.Contents() == frag + hdr + data + rest
      requires pfnData == |frag| && msg == WsMsg(msg.flags, |hdr|, |data|) && |hdr| >= 2 && hdr[0] == msg.flags
      modifies this, recv`len, recv.buf
      ensures Valid() && recv.buf == old(recv.buf)
      ensures Abs() == Rx(Deliver(Assembly(frag, old(log), old(isClosing)), msg.flags, data), rest)
    {
      hide Buffer.Contents, OpEvents, Closes;
      Dispatch(msg.flags, data);
      Consume(msg, frag, hdr, data, rest);
      AfterConsume(rest);
    }

    /** One turn of the receive loop. */
    method TakeFrame() returns (more: bool)
      requires Valid()
      modifies this, recv`len, recv.buf
      ensures Valid() && recv.buf == old(recv.buf)
      ensures var rx := old(Abs());
              match Process(rx.pending)
              case Incomplete => !more && Abs() == rx
              case Frame(flags, h, data) => more && Abs() == Rx(Deliver(rx.asm, flags, data), rx.pending[h + |data|..])
    {
      hide Process, Mask, Lengths, Buffer.Contents, Deliver;
      ghost var rx := Abs();
      var total, msg := ParseFrame();
      more := total > 0;
      if more {
        ghost var data := Process(rx.pending).payload;
        TakeUnmasked(msg, rx.asm.frag, rx.pending[..msg.headerLen], data, rx.pending[total..]);
      }
    }

    static lemma AfterConsume(rest: seq<byte>)
      ensures forall f: seq<byte> :: (f + rest)[..|f|] == f && (f + rest)[|f|..] == rest
      ensures rest[..0] == [] && rest[0..] == rest
    {
    }

    /** mg_ws_cb on MG_EV_READ, for an open websocket. */
    method OnRead()
      requires Valid()
      modifies this, recv`len, recv.buf
      ensures Valid() && recv.buf == old(recv.buf)
      ensures Abs() == Drain(old(Abs()))
    {
      var more := true;
      while more
        invariant Valid() && recv.buf == old(recv.buf)
        invariant Drain(Abs()) == Drain(old(Abs()))
        invariant !more ==> Process(Abs().pending).Incomplete?
        decreases more, |Abs().pending|
      {
        ghost var rx := Abs();
        more := TakeFrame();
      }
    }

    /** A read from the socket: the bytes are appended, with memory to spare, and the loop runs. */
    method Receive(chunk: seq<byte>)
      requires Valid()
      modifies this, recv, recv.buf
      ensures Valid() && (recv.buf == old(recv.buf) || fresh(recv.buf))
      ensures Abs() == WsStream.Receive(old(Abs()), chunk)
    {
      ghost var rx, s := Abs(), recv.Contents();
      MgSend(recv, chunk);
      assert Abs() == rx.(pending := rx.pending + chunk);
      OnRead();
    }

    /** Any number of reads. */
    method ReceiveAll(chunks: seq<seq<byte>>)
      requires Valid()
      modifies this, recv, recv.buf
      ensures Valid()
      ensures Abs() == WsStream.ReceiveAll(old(Abs()), chunks)
    {
      var i := 0;
      while i < |chunks|
        invariant 0 <= i <= |chunks|
        invariant Valid() && (recv.buf == old(recv.buf) || fresh(recv.buf))
        invariant WsStream.ReceiveAll(Abs(), chunks[i..]) == WsStream.ReceiveAll(old(Abs()), chunks)
      {
        Receive(chunks[i]);
        assert chunks[i..][1..] == chunks[i + 1..];
        i := i + 1;
      }
    }
  }

  /** ws_process on the bytes of the buffer from `ofs` on. */
  method ParseBuffer(recv: Buffer, ofs: nat, ghost frag: seq<byte>, ghost buf: seq<byte>)
      returns (total: nat, msg: WsMsg)
    requires recv.Valid() && ofs == |frag| && recv.Contents() == frag + buf
    modifies recv.buf
    ensures recv.Valid()
    ensures var f := Process(buf);
            && total == f.Total() && (total > 0 ==> f.Frame? && msg == WsMsg(f.flags, f.hdr, |f.payload|))
            && recv.Contents() == if total == 0 then frag + buf else Splice(frag + buf, ofs + f.hdr, f.payload)
  {
    hide Process, Mask, Lengths, Splice;
    ghost var m := recv.buf[..];
    assert m[..recv.len] == frag + buf;
    assert LiesAt(buf, m, ofs);
    total, msg := WsProcess(recv.buf, ofs, recv.len - ofs, buf);
    if total > 0 {
      SpliceInPrefix(m, recv.len, ofs + msg.headerLen, Process(buf).payload);
    }
    assert recv.buf[..recv.len] == recv.buf[..][..recv.len];
  }

  lemma Halves<T>(s: seq<T>, n: nat)
    requires n <= |s|
    ensures s[..n] + s[n..] == s
  {
  }

  lemma SpliceBehind(a: seq<byte>, b: seq<byte>, h: nat, x: seq<byte>)
    requires h + |x| <= |b|
    ensures Splice(a + b, |a| + h, x) == a + b[..h] + x + b[h + |x|..]
  {
  }

  lemma RemoveMiddle(a: seq<byte>, b: seq<byte>, c: seq<byte>)
    ensures Removed(a + b + c, |a|, |b|) == a + c
  {
  }

  lemma StripHeader(frag: seq<byte>, hdr: seq<byte>, data: seq<byte>, rest: seq<byte>, op: nat)
    requires |hdr| >= 2
    ensures op == 0 ==> Removed(frag + hdr + data + rest, |frag|, |hdr|) == frag + [] + data + rest
    ensures op != 0 ==> Removed(frag + hdr + data + rest, |frag| + 1, |hdr| - 1) == frag + [hdr[0]] + data + rest
  {
    hide Removed;
    if op == 0 {
      RemoveMiddle(frag, hdr, data + rest);
      Regroup(frag, [], hdr, data, rest);
      assert [] + hdr == hdr && frag + [] == frag;
    } else {
      RemoveMiddle(frag + [hdr[0]], hdr[1..], data + rest);
      Regroup(frag, [hdr[0]], hdr[1..], data, rest);
      assert [hdr[0]] + hdr[1..] == hdr;
    }
  }

  lemma Regroup(a: seq<byte>, b: seq<byte>, c: seq<byte>, d: seq<byte>, e: seq<byte>)
    ensures a + (b + c) + d + e == (a + b) + c + (d + e)
    ensures (a + b) + (d + e) == a + b + d + e
  {
  }
}
