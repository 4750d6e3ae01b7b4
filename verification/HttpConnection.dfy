// The chunked path of http_cb in components/mongoose/src/http.c as it runs on the
// receive buffer: scanning, walking, and compacting the body in place.
module HttpConnection {
  import opened Bytes
  import opened IoBuf
  import opened HttpChunks

  /** mg_http_write_chunk, with memory to spare. */
  method WriteChunk(send: Buffer, data: seq<byte>)
    requires send.Valid()
    modifies send, send.buf
    ensures send.Valid() && (send.buf == old(send.buf) || fresh(send.buf))
    ensures send.Contents() == old(send.Contents()) + Chunk(data)
  {
    hide Hex, Buffer.Contents, Buffer.Valid;
    ghost var s := send.Contents();
    MgSend(send, Hex(|data|) + [CR, LF]);
    MgSend(send, data);
    MgSend(send, [CR, LF]);
    assert s + (Hex(|data|) + [CR, LF]) + data + [CR, LF] == s + (Hex(|data|) + [CR, LF] + data + [CR, LF]);
  }

  /** mg_unhexn */
  method Unhexn(s: seq<byte>) returns (v: uint32)
    ensures v == Unhex(s)
  {
    hide OrBits;
    v := 0;
    var i := 0;
    while i < |s|
      invariant 0 <= i <= |s| && v == Unhex(s[..i])
    {
      Width32();
      assert s[..i + 1][..i] == s[..i];
      v := OrBits(v * 16 % 0x1_0000_0000, Nimble(s[i]), 32);
      i := i + 1;
    }
    assert s[..|s|] == s;
  }

  /** get_chunk_length */
  method GetChunkLength(buf: seq<byte>) returns (cl: nat, ll: nat)
    ensures (cl, ll) == ChunkLength(buf)
  {
    hide Unhex;
    var i := 0;
    while i < |buf| && buf[i] != CR && i != 10
      invariant 0 <= i <= |buf| && SizeEnd(buf, i) == SizeEnd(buf, 0)
    {
      i := i + 1;
    }
    var n := Unhexn(buf[..i]);
    ghost var i1 := i;
    while i < |buf| && (buf[i] == CR || i == 10)
      invariant i1 <= i <= |buf| && LineEnd(buf, i) == LineEnd(buf, i1)
    {
      i := i + 1;
    }
    ll := i + 1;
    cl := if i < |buf| && Size(i + n + 2) < |buf| then Size(i + n + 3) else 0;
  }

  /** mg_http_get_request_len */
  method GetRequestLen(b: seq<byte>) returns (n: int)
    ensures n == HeadLength(b, 0)
  {
    var i := 0;
    while i < |b|
      invariant 0 <= i <= |b| && HeadLength(b, i) == HeadLength(b, 0)
    {
      if !(32 <= b[i] < 127) && b[i] != CR && b[i] != LF && b[i] < 128 { return -1; }
      if (i > 0 && b[i] == LF && b[i - 1] == LF) ||
          (i > 3 && b[i] == LF && b[i - 1] == CR && b[i - 2] == LF) { return i + 1; }
      i := i + 1;
    }
    return 0;
  }

  /** One step of the compaction, on sequences. */
  lemma CompactStep(b: seq<byte>, off: nat)
    requires off < |b| < 0x1_0000_0000
    ensures var (cl, ll) := ChunkLength(b[off..]);
            var d := DataOf(b[off..], cl, ll);
            && off + cl <= |b|
            && d == (if cl < ll + 2 then [] else b[off + ll..off + cl - 2])
            && Compact(b[off..]) ==
                 if cl <= 5 then (d, cl)
                 else (d + Compact(b[off + cl..]).0, cl + Compact(b[off + cl..]).1)
  {
    hide ChunkLength;
    var (cl, ll) := ChunkLength(b[off..]);
    assert b[off..][cl..] == b[off + cl..];
    if cl >= ll + 2 {
      assert b[off..][ll..cl - 2] == b[off + ll..off + cl - 2];
    }
  }

  class Connection {
    const parse: HeadParser   // mg_http_parse of a complete head
    const recv: Buffer
    ghost var log: seq<Event>

    ghost predicate Valid()
      reads this, recv
    {
      recv.Valid() && recv.len < 0x1_0000_0000
    }

    ghost function Abs(): (rx: Rx)
      requires Valid()
      reads this, recv, recv.buf
    {
      Rx(recv.Contents(), log)
    }

    constructor (parse: HeadParser)
      ensures Valid() && fresh(recv) && fresh(recv.buf) && Abs() == Rx([], []) && this.parse == parse
    {
      this.parse := parse;
      recv := new Buffer();
      log := [];
    }

    /** The second loop of walkchunks: the data of all chunks is moved together behind the head. */
    method MoveTogether(reqlen: nat) returns (bl: nat, off: nat)
      requires Valid() && reqlen <= recv.len
      modifies recv.buf
      ensures var r := old(recv.Contents());
              var (body, used) := Compact(r[reqlen..]);
              bl == |body| && off == used && recv.Contents() == Splice(r, reqlen, body)
    {
      hide ChunkLength, Compact, DataOf;
      ghost var r, b := recv.Contents(), recv.Contents()[reqlen..];
      ghost var goal := Compact(b);
      off, bl := 0, 0;
      ghost var body: seq<byte>, rest := [], goal;
      var more := true;
      assert b[0..] == b && [] + goal.0 == goal.0;
      assert r == Splice(r, reqlen, []);
      while more && off + reqlen < recv.len
        invariant 0 <= bl == |body| <= off <= |b|
        invariant rest == if more then Compact(b[off..]) else ([], 0)
        invariant goal.0 == body + rest.0 && goal.1 == off + rest.1
        invariant recv.buf[..recv.len] == Splice(r, reqlen, body)
        decreases more, |b| - off
      {
        var cl2, n := CompactChunk(reqlen, bl, off, r, b, body);
        CompactStep(b, off);
        ghost var d := DataOf(b[off..], cl2, ChunkLength(b[off..]).1);
        rest := if cl2 <= 5 then ([], 0) else Compact(b[off + cl2..]);
        Regroup(body, d, rest.0);
        body := body + d;
        bl := bl + n;
        off := off + cl2;
        if cl2 <= 5 { more := false; }
      }
      CompactEnd(b, off);
      assert body + [] == body;
    }

    static lemma Regroup(a: seq<byte>, b: seq<byte>, c: seq<byte>)
      ensures a + (b + c) == (a + b) + c && b + [] == b
    {
    }

    static lemma CompactEnd(b: seq<byte>, off: nat)
      requires off <= |b| < 0x1_0000_0000
      ensures off == |b| ==> Compact(b[off..]) == ([], 0)
    {
    }

    /** The compaction: the buffer is shortened by the bytes gained. */
    method CompactBody(reqlen: nat) returns (bl: nat)
      requires Valid() && reqlen <= recv.len
      modifies recv`len, recv.buf
      ensures Valid() && recv.buf == old(recv.buf)
      ensures var r := old(recv.Contents());
              var (body, used) := Compact(r[reqlen..]);
              bl == |body| && recv.Contents() == r[..reqlen] + body + r[reqlen + |body|..|r| - (used - |body|)]
    {
      hide Compact;
      ghost var r := recv.Contents();
      var off;
      bl, off := MoveTogether(reqlen);
      ghost var a := recv.buf[..recv.len];
      recv.len := recv.len - (off - bl);
      assert recv.buf[..recv.len] == a[..recv.len];
      SpliceFront(r, reqlen, Compact(r[reqlen..]).0, recv.len);
    }

    static lemma SpliceFront(r: seq<byte>, at: nat, x: seq<byte>, n: nat)
      requires at + |x| <= n <= |r|
      ensures Splice(r, at, x)[..n] == r[..at] + x + r[at + |x|..n]
    {
    }

    /** One turn of that loop. */
    method CompactChunk(reqlen: nat, bl: nat, off: nat, ghost r: seq<byte>, ghost b: seq<byte>, ghost body: seq<byte>)
      returns (cl2: nat, n: nat)
      requires Valid() && reqlen + off < recv.len == |r| && b == r[reqlen..] && |body| == bl <= off
      requires recv.buf[..recv.len] == Splice(r, reqlen, body)
      modifies recv.buf
      ensures cl2 == ChunkLength(b[off..]).0 && off + cl2 <= |b|
      ensures var d := DataOf(b[off..], cl2, ChunkLength(b[off..]).1);
              n == |d| && reqlen + bl + n <= |r| && recv.buf[..recv.len] == Splice(r, reqlen, body + d)
    {
      hide ChunkLength, Compact;
      assert recv.buf[reqlen + off..recv.len] == b[off..] by {
        SuffixAt(recv.buf[..recv.len], r, b, reqlen, off);
      }
      var ll;
      cl2, ll := GetChunkLength(recv.buf[reqlen + off..recv.len]);
      n := if cl2 < ll + 2 then 0 else cl2 - ll - 2;
      ChunkData(r, b, reqlen, off, cl2, ll);
      hide Splice;
      if n > 0 {
        MoveData(reqlen, bl, off + ll, n, r, body);
      } else {
        assert body + [] == body;
      }
    }

    /** Where the data of the chunk at `off` stand. */
    static lemma ChunkData(r: seq<byte>, b: seq<byte>, reqlen: nat, off: nat, cl: nat, ll: nat)
      requires reqlen + off <= |r| && b == r[reqlen..] && cl <= |b| - off
      ensures DataOf(b[off..], cl, ll) ==
              if cl < ll + 2 then [] else r[reqlen + off + ll..reqlen + off + cl - 2]
    {
      if cl >= ll + 2 {
        assert b[off..] == r[reqlen + off..|r|];
        SliceOfSlice(r, reqlen + off, |r|, ll, cl - 2);
      }
    }

    static lemma SuffixAt(a: seq<byte>, r: seq<byte>, b: seq<byte>, reqlen: nat, off: nat)
      requires |a| == |r| && reqlen + off <= |r| && b == r[reqlen..]
      requires forall i :: reqlen + off <= i < |r| ==> a[i] == r[i]
      ensures a[reqlen + off..] == b[off..]
    {
    }

    /** The memmove of one chunk's data. */
    method MoveData(reqlen: nat, bl: nat, from: nat, n: nat, ghost r: seq<byte>, ghost body: seq<byte>)
      requires recv.Valid() && |body| == bl <= from && reqlen + from + n <= recv.len == |r|
      requires recv.buf[..recv.len] == Splice(r, reqlen, body)
      modifies recv.buf
      ensures recv.buf[..recv.len] == Splice(r, reqlen, body + r[reqlen + from..reqlen + from + n])
    {
      hide Splice;
      ghost var m, len := recv.buf[..], recv.len;
      MemmoveSeq(recv.buf, reqlen + bl, reqlen + from, n);
      ghost var x := m[reqlen + from..reqlen + from + n];
      SpliceInPrefix(m, len, reqlen + bl, x);
      assert m[..len] == Splice(r, reqlen, body);
      SliceOfPart(m, len, reqlen + from, reqlen + from + n);
      BehindSplice(r, reqlen, body, reqlen + from, reqlen + from + n);
      SpliceOn(r, reqlen, body, x);
      assert recv.buf[..len] == recv.buf[..][..len];
    }

    static lemma SliceOfPart(m: seq<byte>, len: nat, lo: nat, hi: nat)
      requires lo <= hi <= len <= |m|
      ensures m[..len][lo..hi] == m[lo..hi]
    {
    }

    /** walkchunks: chunk events for what has arrived; if that is everything, the body is compacted. */
    method WalkChunks(reqlen: nat) returns (complete: bool, bodyLen: nat)
      requires Valid() && reqlen <= recv.len
      modifies this, recv`len, recv.buf
      ensures Valid() && recv.buf == old(recv.buf)
      ensures var r := old(recv.Contents());
              var w := Walk(r[reqlen..]);
              && complete == w.last && log == old(log) + ChunkEvents(w.chunks)
              && if complete
                 then var (body, used) := Compact(r[reqlen..]);
                      bodyLen == |body|
                      && recv.Contents() == r[..reqlen] + body + r[reqlen + |body|..|r| - (used - |body|)]
                 else recv.Contents() == r
    {
      hide ChunkLength, Compact, Walk, ChunkEvents;
      complete := WalkEvents(reqlen);
      bodyLen := 0;
      if complete {
        bodyLen := CompactBody(reqlen);
      }
    }

    /** The first loop of walkchunks. */
    method WalkEvents(reqlen: nat) returns (last: bool)
      requires Valid() && reqlen <= recv.len
      modifies this
      ensures Valid()
      ensures var w := Walk(recv.Contents()[reqlen..]);
              last == w.last && log == old(log) + ChunkEvents(w.chunks)
    {
      hide ChunkLength, Walk, ChunkEvents;
      ghost var b := recv.Contents()[reqlen..];
      var off := 0;
      ghost var seen: seq<seq<byte>> := [];
      assert b[0..] == b;
      NothingSeen(old(log), Walk(b));
      while off + reqlen < recv.len
        modifies this
        invariant 0 <= off <= |b|
        invariant log == old(log) + ChunkEvents(seen)
        invariant Walk(b) == Walked(seen + Walk(b[off..]).chunks, Walk(b[off..]).last)
        decreases |b| - off
      {
        assert recv.buf[reqlen + off..recv.len] == b[off..];
        var cl, ll := GetChunkLength(recv.buf[reqlen + off..recv.len]);
        WalkStep(b, off);
        if cl == 0 { break; }
        ghost var d := DataOf(b[off..], cl, ll);
        log := log + [ChunkEvent(d)];
        EventsSnoc(seen, d);
        assert seen + ([d] + Walk(b[off + cl..]).chunks) == seen + [d] + Walk(b[off + cl..]).chunks;
        seen := seen + [d];
        off := off + cl;
        if cl <= 5 {
          return true;
        }
      }
      WalkEnd(b, off);
      return false;
    }

    static lemma NothingSeen(log: seq<Event>, w: Walked)
      ensures log + ChunkEvents([]) == log && [] + w.chunks == w.chunks
    {
    }

    static lemma {:induction false} EventsSnoc(cs: seq<seq<byte>>, d: seq<byte>)
      ensures ChunkEvents(cs + [d]) == ChunkEvents(cs) + [ChunkEvent(d)]
    {
      if cs == [] {
        assert ChunkEvents([d]) == [ChunkEvent(d)] + ChunkEvents([d][1..]);
      } else {
        EventsSnoc(cs[1..], d);
        assert (cs + [d])[1..] == cs[1..] + [d];
      }
    }

    /** http_cb on MG_EV_READ */
    method OnRead()
      requires Valid()
      modifies this, recv`len, recv.buf
      ensures Valid() && recv.buf == old(recv.buf)
      ensures Abs() == HttpChunks.OnRead(parse, old(Abs()))
    {
      hide HttpChunks.OneTurn;
      var more := true;
      while more
        invariant Valid() && recv.buf == old(recv.buf)
        invariant if more then HttpChunks.OnRead(parse, Abs()) == HttpChunks.OnRead(parse, old(Abs()))
                  else Abs() == HttpChunks.OnRead(parse, old(Abs()))
        decreases more, recv.len
      {
        more := TakeMessage();
      }
    }

    /** One turn of http_cb's loop. */
    method TakeMessage() returns (more: bool)
      requires Valid()
      modifies this, recv`len, recv.buf
      ensures Valid() && recv.buf == old(recv.buf)
      ensures OneTurn(parse, old(Abs())) == if more then Again(Abs()) else Stop(Abs())
    {
      hide Walk, Compact, HeadLength, ChunkEvents, Buffer.Contents, ChunkedTurn, PlainTurn;
      ghost var r := recv.Contents();
      var n := HeadOfBuffer();
      if n == 0 {
        return false;
      }
      var h := if n > 0 then parse(recv.buf[..n]) else Malformed;
      assert n > 0 ==> recv.buf[..n] == r[..n] by { FrontOfBuffer(n); }
      if h.Malformed? {
        log := log + [ErrorEvent];
        return false;
      }
      var m := MessageLength(h, n);
      if h.chunked {
        more := TakeChunked(n, m);
      } else {
        more := TakePlain(n, m, false);
      }
    }

    lemma FrontOfBuffer(n: int)
      requires recv.Valid()
      ensures 0 < n <= recv.len ==> recv.buf[..n] == recv.Contents()[..n]
    {
    }

    /** A chunked message: walked, and taken if that was all of it. */
    method TakeChunked(n: nat, m: nat) returns (more: bool)
      requires Valid() && 0 < n <= recv.len && n <= m
      modifies this, recv`len, recv.buf
      ensures Valid() && recv.buf == old(recv.buf)
      ensures ChunkedTurn(old(recv.Contents()), old(log), n, m) == if more then Again(Abs()) else Stop(Abs())
    {
      hide Walk, Compact, ChunkEvents, Buffer.Contents, PlainTurn;
      ghost var r := recv.Contents();
      var complete, bodyLen := WalkChunks(n);
      if !complete {
        more := TakePlain(n, m, true);
        return;
      }
      ghost var body, used := Compact(r[n..]).0, Compact(r[n..]).1;
      log := log + [MsgEvent(body)];
      DropFront(n + bodyLen, r[..n] + body, r[n + |body|..|r| - (used - |body|)]);
      more := true;
    }

    /** A message of known length: taken if it is all there. */
    method TakePlain(n: nat, m: nat, chunked: bool) returns (more: bool)
      requires Valid() && n <= recv.len && n <= m
      modifies this, recv`len, recv.buf
      ensures Valid() && recv.buf == old(recv.buf)
      ensures PlainTurn(old(recv.Contents()), old(log), n, m, chunked) == if more then Again(Abs()) else Stop(Abs())
    {
      ghost var r := recv.Contents();
      more := recv.len >= m;
      if more {
        log := log + [MsgEvent(r[n..m])];
        assert r == r[..m] + r[m..];
        DropFront(m, r[..m], r[m..]);
      } else {
        log := log + if chunked then [] else [ChunkEvent(r[n..])];
      }
    }

    /** mg_iobuf_del of a message. */
    method DropFront(n: nat, ghost front: seq<byte>, ghost rest: seq<byte>)
      requires Valid() && recv.Contents() == front + rest && n == |front|
      modifies recv`len, recv.buf
      ensures Valid() && recv.buf == old(recv.buf) && recv.Contents() == rest
    {
      hide Buffer.Contents, Removed;
      RemoveFront(front, rest);
      var _ := recv.Del(0, n);
    }

    method HeadOfBuffer() returns (n: int)
      requires Valid()
      ensures n == HeadLength(recv.Contents(), 0)
    {
      n := GetRequestLen(recv.buf[..recv.len]);
    }

    static lemma RemoveFront(a: seq<byte>, b: seq<byte>)
      ensures Removed(a + b, 0, |a|) == b
    {
    }

    /** A read from the socket, with memory to spare. */
    method Receive(chunk: seq<byte>)
      requires Valid() && recv.len + |chunk| < 0x1_0000_0000
      modifies this, recv, recv.buf
      ensures Valid() && (recv.buf == old(recv.buf) || fresh(recv.buf))
      ensures Abs() == HttpChunks.Receive(parse, old(Abs()), chunk)
    {
      hide HttpChunks.OnRead;
      MgSend(recv, chunk);
      OnRead();
    }
  }

  /** One step of the walk, on sequences. */
  lemma WalkStep(b: seq<byte>, off: nat)
    requires off < |b| < 0x1_0000_0000
    ensures var (cl, ll) := ChunkLength(b[off..]);
            && off + cl <= |b|
            && Walk(b[off..]) ==
                 if cl == 0 then Walked([], false)
                 else if cl <= 5 then Walked([DataOf(b[off..], cl, ll)], true)
                 else Walked([DataOf(b[off..], cl, ll)] + Walk(b[off + cl..]).chunks, Walk(b[off + cl..]).last)
  {
    hide ChunkLength, DataOf;
    var (cl, ll) := ChunkLength(b[off..]);
    assert b[off..][cl..] == b[off + cl..];
  }

  lemma WalkEnd(b: seq<byte>, off: nat)
    requires off <= |b| < 0x1_0000_0000
    ensures off == |b| ==> Walk(b[off..]) == Walked([], false)
    ensures forall s: seq<seq<byte>> :: s + [] == s
  {
  }
}
