// Chunked bodies in components/mongoose/src/http.c on byte sequences: the chunks
// that are written, the walk over what has arrived, and the compaction of a
// complete body (section 4.1 of RFC 7230).
module HttpChunks {
  import opened Bytes
  import opened Wrappers

  const CR: byte := 13
  const LF: byte := 10

  /** size_t arithmetic on the target. */
  function Size(n: nat): (s: uint32) {
    n % 0x1_0000_0000
  }

  // ----------------------------------------------------------------- the writer

  function Digit(d: nat): (c: byte)
    requires d < 16
  {
    if d < 10 then 48 + d else 55 + d
  }

  /** %lX */
  function Hex(n: nat): (s: seq<byte>)
    ensures |s| >= 1
  {
    if n < 16 then [Digit(n)] else Hex(n / 16) + [Digit(n % 16)]
  }

  /** mg_http_write_chunk */
  function Chunk(data: seq<byte>): (w: seq<byte>)
    ensures |w| >= |data| + 5
  {
    Hex(|data|) + [CR, LF] + data + [CR, LF]
  }

  /** A body: its chunks, then the empty one. */
  function Body(cs: seq<seq<byte>>): (w: seq<byte>)
    ensures |w| >= 5
  {
    if cs == [] then Chunk([]) else Chunk(cs[0]) + Body(cs[1..])
  }

  /** Chunks that are not empty and whose size arithmetic does not wrap. */
  ghost predicate ChunksOk(cs: seq<seq<byte>>) {
    forall i :: 0 <= i < |cs| ==> 0 < |cs[i]| <= 0xFFFF_FFF0
  }

  // ----------------------------------------------------------------- the reader

  /** mg_unhex_nimble */
  function Nimble(c: byte): (d: byte) {
    if 48 <= c <= 57 then c - 48 else if 65 <= c <= 70 then c - 55 else (c - 87) % 256
  }

  /** mg_unhexn, in 32 bits. */
  function Unhex(s: seq<byte>): (v: uint32) {
    if s == [] then 0
    else
      assert Pow2(32) == 0x1_0000_0000 by { Width32(); }
      OrBits(Unhex(s[..|s| - 1]) * 16 % 0x1_0000_0000, Nimble(s[|s| - 1]), 32)
  }

  lemma Width32()
    ensures Pow2(32) == 0x1_0000_0000
  {
    assert Pow2(8) == 256;
    assert Pow2(16) == 0x1_0000;
    assert Pow2(24) == 0x100_0000;
  }

  /** The first loop of get_chunk_length: up to a carriage return, or to index 10. */
  function SizeEnd(b: seq<byte>, i: nat): (e: nat)
    requires i <= |b|
    ensures i <= e <= |b|
    decreases |b| - i
  {
    if i < |b| && b[i] != CR && i != 10 then SizeEnd(b, i + 1) else i
  }

  /** The second loop: past carriage returns, and past index 10. */
  function LineEnd(b: seq<byte>, i: nat): (e: nat)
    requires i <= |b|
    ensures i <= e <= |b|
    decreases |b| - i
  {
    if i < |b| && (b[i] == CR || i == 10) then LineEnd(b, i + 1) else i
  }

  /** get_chunk_length: the length of a complete chunk, or 0, and the length of its size line. */
  function ChunkLength(b: seq<byte>): (r: (nat, nat))
    ensures r.0 > 0 ==> r.1 <= |b|
    ensures |b| < 0x1_0000_0000 ==> r.0 <= |b|
  {
    var i1 := SizeEnd(b, 0);
    var n := Unhex(b[..i1]);
    var i2 := LineEnd(b, i1);
    (if i2 < |b| && Size(i2 + n + 2) < |b| then Size(i2 + n + 3) else 0, i2 + 1)
  }

  lemma {:induction false} HexDigits(n: nat, k: nat)
    requires k >= 1 && n < Pow2(4 * k)
    ensures |Hex(n)| <= k
    decreases k
  {
    if n >= 16 {
      Pow2Plus4(4 * (k - 1));
      HexDigits(n / 16, k - 1);
    }
  }

  lemma Pow2Plus4(w: nat)
    ensures Pow2(w + 4) == 16 * Pow2(w)
    ensures Pow2(0) == 1 && Pow2(4) == 16
  {
    assert Pow2(w + 4) == 2 * Pow2(w + 3) == 4 * Pow2(w + 2) == 8 * Pow2(w + 1);
  }

  /** One more digit. */
  lemma UnhexSnoc(s: seq<byte>, v: nat, d: nat)
    requires Unhex(s) == v < 0x1000_0000 && d < 16
    ensures Unhex(s + [Digit(d)]) == 16 * v + d
  {
    hide Unhex;
    OneMoreDigit(s, Digit(d), v);
  }

  lemma OneMoreDigit(s: seq<byte>, c: byte, v: nat)
    requires Unhex(s) == v < 0x1000_0000 && Nimble(c) < 16
    ensures Unhex(s + [c]) == 16 * v + Nimble(c)
  {
    hide OrBits;
    Width32();
    Pow2Plus4(0);
    assert (s + [c])[..|s|] == s;
    OrIntoClearBits(v, Nimble(c), 4, 32);
  }

  /** What is written is read back. */
  lemma {:induction false} HexRoundTrip(n: nat)
    requires n < 0x1_0000_0000
    ensures Unhex(Hex(n)) == n
  {
    hide Unhex, Digit;
    if n < 16 {
      assert Unhex([]) == 0 by { NoDigits(); }
      UnhexSnoc([], 0, n);
      assert [] + [Digit(n)] == Hex(n);
    } else {
      HexRoundTrip(n / 16);
      UnhexSnoc(Hex(n / 16), n / 16, n % 16);
    }
  }

  lemma NoDigits()
    ensures Unhex([]) == 0
  {
  }

  lemma {:induction false} HexHasNoCr(n: nat)
    ensures forall i :: 0 <= i < |Hex(n)| ==> Hex(n)[i] != CR
  {
    if n >= 16 {
      HexHasNoCr(n / 16);
    }
  }

  lemma {:induction false} SizeEndIs(b: seq<byte>, i: nat, e: nat)
    requires i <= e <= |b| && e <= 10 && (e == |b| || b[e] == CR || e == 10)
    requires forall k :: i <= k < e ==> b[k] != CR
    ensures SizeEnd(b, i) == e
    decreases e - i
  {
    if i < e {
      SizeEndIs(b, i + 1, e);
    }
  }

  /** The size line of a chunk, or of as much of it as there is. */
  lemma SizeLine(data: seq<byte>, b: seq<byte>)
    requires |data| <= 0xFFFF_FFF0
    requires var line := Hex(|data|) + [CR, LF];
             forall k :: 0 <= k < |b| && k < |line| ==> b[k] == line[k]
    ensures var h := |Hex(|data|)|;
            && h <= 8
            && SizeEnd(b, 0) == (if |b| < h then |b| else h)
            && LineEnd(b, SizeEnd(b, 0)) == (if |b| < h then |b| else if |b| == h then h else h + 1)
            && (|b| >= h ==> Unhex(b[..h]) == |data|)
  {
    hide Unhex;
    var x, h := Hex(|data|), |Hex(|data|)|;
    EightDigits(|data|);
    HexHasNoCr(|data|);
    var line := x + [CR, LF];
    assert forall k :: 0 <= k < h ==> line[k] == x[k];
    assert line[h] == CR && line[h + 1] == LF;
    if |b| < h {
      SizeEndIs(b, 0, |b|);
    } else {
      SizeEndIs(b, 0, h);
      assert b[..h] == x;
      HexRoundTrip(|data|);
      if |b| > h {
        assert LineEnd(b, h) == LineEnd(b, h + 1);
      }
    }
  }

  lemma EightDigits(n: nat)
    requires n < 0x1_0000_0000
    ensures |Hex(n)| <= 8
  {
    Width32();
    HexDigits(n, 8);
  }

  /** A whole chunk in front of anything has its length recognised. */
  lemma ChunkIsRecognised(data: seq<byte>, rest: seq<byte>)
    requires |data| <= 0xFFFF_FFF0
    ensures ChunkLength(Chunk(data) + rest) == (|Chunk(data)|, |Hex(|data|)| + 2)
    ensures (Chunk(data) + rest)[|Hex(|data|)| + 2..|Chunk(data)| - 2] == data
  {
    hide Hex, Unhex, SizeEnd, LineEnd, ChunkLength, Chunk;
    var b, line := Chunk(data) + rest, Hex(|data|) + [CR, LF];
    ChunkParts(data, rest);
    SizeLine(data, b);
    LengthFromLine(b, |Hex(|data|)|, |data|);
    DataBehind(line, data, [CR, LF] + rest);
  }

  lemma ChunkParts(data: seq<byte>, rest: seq<byte>)
    ensures var line := Hex(|data|) + [CR, LF];
            && Chunk(data) + rest == line + (data + ([CR, LF] + rest))
            && |Chunk(data)| == |line| + |data| + 2
            && forall k :: 0 <= k < |line| ==> (Chunk(data) + rest)[k] == line[k]
  {
    hide Hex;
  }

  /** The lengths, once the size line is understood. */
  lemma LengthFromLine(b: seq<byte>, h: nat, n: nat)
    requires h <= 8 && n <= 0xFFFF_FFF0 && h + 1 < |b|
    requires SizeEnd(b, 0) == h && LineEnd(b, h) == h + 1 && Unhex(b[..h]) == n
    ensures ChunkLength(b) == (if h + n + 3 < |b| then h + n + 4 else 0, h + 2)
  {
    hide Unhex, SizeEnd, LineEnd;
  }

  lemma DataBehind(a: seq<byte>, b: seq<byte>, c: seq<byte>)
    ensures (a + (b + c))[|a|..|a| + |b|] == b
  {
  }

  /** Part of a chunk is not taken for a chunk. */
  lemma PartIsNotRecognised(data: seq<byte>, m: nat)
    requires |data| <= 0xFFFF_FFF0 && m < |Chunk(data)|
    ensures ChunkLength(Chunk(data)[..m]).0 == 0
  {
    hide Hex, Unhex, SizeEnd, LineEnd;
    var b := Chunk(data)[..m];
    assert forall k :: 0 <= k < m && k < |Hex(|data|)| + 2 ==> b[k] == (Hex(|data|) + [CR, LF])[k];
    SizeLine(data, b);
  }

  /** The data of a chunk of length `cl` whose size line has length `ll`. */
  function DataOf(b: seq<byte>, cl: nat, ll: nat): (d: seq<byte>)
    requires cl <= |b|
    ensures |d| <= cl
  {
    if cl < ll + 2 then [] else b[ll..cl - 2]
  }

  datatype Walked = Walked(chunks: seq<seq<byte>>, last: bool)

  /** The walk over a partial body: the complete chunks, up to the last one if that has arrived. */
  function Walk(b: seq<byte>): (w: Walked)
    requires |b| < 0x1_0000_0000
    decreases |b|
  {
    var (cl, ll) := ChunkLength(b);
    if b == [] || cl == 0 then Walked([], false)
    else if cl <= 5 then Walked([DataOf(b, cl, ll)], true)
    else
      var w := Walk(b[cl..]);
      Walked([DataOf(b, cl, ll)] + w.chunks, w.last)
  }

  /** The compaction of a complete body: the data without the framing, and how many bytes it was taken from. */
  function Compact(b: seq<byte>): (c: (seq<byte>, nat))
    requires |b| < 0x1_0000_0000
    ensures |c.0| <= c.1 <= |b|
    decreases |b|
  {
    var (cl, ll) := ChunkLength(b);
    if b == [] then ([], 0)
    else if cl <= 5 then (DataOf(b, cl, ll), cl)
    else
      var (body, used) := Compact(b[cl..]);
      (DataOf(b, cl, ll) + body, cl + used)
  }

  /** A recognised chunk in front. */
  lemma OneChunkOff(c: seq<byte>, more: seq<byte>, data: seq<byte>, ll: nat)
    requires 5 < |c| && |c + more| < 0x1_0000_0000 && ll + 2 <= |c|
    requires ChunkLength(c + more) == (|c|, ll) && (c + more)[ll..|c| - 2] == data
    ensures Walk(c + more) == Walked([data] + Walk(more).chunks, Walk(more).last)
    ensures Compact(c + more) == (data + Compact(more).0, |c| + Compact(more).1)
  {
    hide ChunkLength, Walk, Compact;
    var b := c + more;
    assert b[|c|..] == more;
    WalkOff(b, |c|, ll);
    CompactOff(b, |c|, ll);
  }

  lemma WalkOff(b: seq<byte>, cl: nat, ll: nat)
    requires |b| < 0x1_0000_0000 && 5 < cl <= |b| && ChunkLength(b) == (cl, ll)
    ensures Walk(b) == Walked([DataOf(b, cl, ll)] + Walk(b[cl..]).chunks, Walk(b[cl..]).last)
  {
    hide ChunkLength, DataOf;
  }

  lemma CompactOff(b: seq<byte>, cl: nat, ll: nat)
    requires |b| < 0x1_0000_0000 && 5 < cl <= |b| && ChunkLength(b) == (cl, ll)
    ensures Compact(b) == (DataOf(b, cl, ll) + Compact(b[cl..]).0, cl + Compact(b[cl..]).1)
  {
    hide ChunkLength, DataOf;
  }

  lemma BodyAndConcat(cs: seq<seq<byte>>, rest: seq<byte>)
    requires cs != []
    ensures Body(cs) + rest == Chunk(cs[0]) + (Body(cs[1..]) + rest) && Concat(cs) == cs[0] + Concat(cs[1..])
    ensures |Body(cs)| == |Chunk(cs[0])| + |Body(cs[1..])|
  {
    hide Chunk;
  }

  /** A complete body, with anything behind it, is walked to its end and compacted to its data. */
  lemma {:induction false} BodyIsCompacted(cs: seq<seq<byte>>, rest: seq<byte>)
    requires ChunksOk(cs) && |Body(cs)| + |rest| < 0x1_0000_0000
    ensures Walk(Body(cs) + rest) == Walked(cs + [[]], true)
    ensures Compact(Body(cs) + rest) == (Concat(cs), |Body(cs)|)
    decreases |cs|
  {
    hide ChunkLength, Chunk, Walk, Compact, Body, Concat, Hex;
    if cs == [] {
      EmptyBodyIsCompacted(rest);
    } else {
      var c, more := Chunk(cs[0]), Body(cs[1..]) + rest;
      BodyAndConcat(cs, rest);
      LongChunk(cs[0]);
      ChunkIsRecognised(cs[0], more);
      OneChunkOff(c, more, cs[0], |Hex(|cs[0]|)| + 2);
      BodyIsCompacted(cs[1..], rest);
      assert cs + [[]] == [cs[0]] + (cs[1..] + [[]]);
    }
  }

  lemma EmptyBodyIsCompacted(rest: seq<byte>)
    requires |Body([])| + |rest| < 0x1_0000_0000
    ensures Walk(Body([]) + rest) == Walked([[]], true)
    ensures Compact(Body([]) + rest) == (Concat([]), |Body([])|)
  {
    hide ChunkLength, Chunk;
    EmptyChunk();
    ChunkIsRecognised([], rest);
  }

  lemma EmptyChunk()
    ensures |Chunk([])| == 5
  {
  }

  lemma LongChunk(data: seq<byte>)
    requires data != []
    ensures |Chunk(data)| == |Hex(|data|)| + |data| + 4 > 5
  {
  }

  /** A body that has not arrived in full is not walked to its end. */
  lemma {:induction false} PartIsNotFinished(cs: seq<seq<byte>>, m: nat)
    requires ChunksOk(cs) && m < |Body(cs)| && |Body(cs)| < 0x1_0000_0000
    ensures !Walk(Body(cs)[..m]).last
    decreases |cs|
  {
    hide ChunkLength, Chunk;
    var b := Body(cs)[..m];
    var c := if cs == [] then Chunk([]) else Chunk(cs[0]);
    if m < |c| {
      assert b == c[..m];
      PartIsNotRecognised(if cs == [] then [] else cs[0], m);
    } else {
      var more := Body(cs[1..])[..m - |c|];
      assert b == c + more;
      LongChunk(cs[0]);
      ChunkIsRecognised(cs[0], more);
      assert b[|c|..] == more;
      PartIsNotFinished(cs[1..], m - |c|);
    }
  }

  // ------------------------------------------------------------- the message loop

  /**
   * mg_http_get_request_len from byte `i` on: the length of the head, 0 while it is incomplete, -1 for
   * a byte that cannot be in one.
   */
  function HeadLength(b: seq<byte>, i: nat): (n: int)
    requires i <= |b|
    ensures n > 0 ==> i < n <= |b|
    decreases |b| - i
  {
    if i == |b| then 0
    else if !(32 <= b[i] < 127) && b[i] != CR && b[i] != LF && b[i] < 128 then -1
    else if i > 0 && b[i] == LF && b[i - 1] == LF then i + 1
    else if i > 3 && b[i] == LF && b[i - 1] == CR && b[i - 2] == LF then i + 1
    else HeadLength(b, i + 1)
  }

  /** What mg_http_parse makes of a head: whether the body is chunked, and its length when it has one. */
  datatype Head = Malformed | Head(chunked: bool, bodyLen: Option<nat>)

  type HeadParser = seq<byte> -> Head

  /** message.len: (size_t) ~0 for a body without a length. */
  function MessageLength(h: Head, n: nat): (m: nat)
    requires h.Head? && n <= 0xFFFF_FFFF
    ensures m >= n
  {
    match h.bodyLen case None => 0xFFFF_FFFF case Some(b) => n + b
  }

  datatype Event = ChunkEvent(data: seq<byte>) | MsgEvent(body: seq<byte>) | ErrorEvent

  function ChunkEvents(cs: seq<seq<byte>>): (es: seq<Event>) {
    if cs == [] then [] else [ChunkEvent(cs[0])] + ChunkEvents(cs[1..])
  }

  /** The receive side: what is in the buffer, and the events so far. */
  datatype Rx = Rx(recv: seq<byte>, log: seq<Event>)

  /** What one turn of http_cb's loop does: leave, or go on behind a message. */
  datatype Turn = Stop(rx: Rx) | Again(rx: Rx)

  /**
   * A message whose length the head tells: delivered once it is all there; until then what there is
   * goes out as a chunk.
   */
  function PlainTurn(r: seq<byte>, log: seq<Event>, n: nat, m: nat, chunked: bool): (t: Turn)
    requires n <= |r| && n <= m
  {
    if |r| >= m then Again(Rx(r[m..], log + [MsgEvent(r[n..m])]))
    else Stop(Rx(r, log + if chunked then [] else [ChunkEvent(r[n..])]))
  }

  /**
   * Once a chunked body is complete its data is moved up to the head and the buffer
   * is shortened by the bytes gained; the bytes behind the moved data stay where
   * they were.
   */
  function ChunkedTurn(r: seq<byte>, log: seq<Event>, n: nat, m: nat): (t: Turn)
    requires 0 < n <= |r| < 0x1_0000_0000 && n <= m
  {
    var w := Walk(r[n..]);
    var log' := log + ChunkEvents(w.chunks);
    if !w.last then PlainTurn(r, log', n, m, true)
    else
      var (body, used) := Compact(r[n..]);
      Again(Rx(r[n + |body|..|r| - (used - |body|)], log' + [MsgEvent(body)]))
  }

  /** http_cb on MG_EV_READ, one turn. */
  function OneTurn(f: HeadParser, rx: Rx): (t: Turn)
    requires |rx.recv| < 0x1_0000_0000
    ensures t.Stop? ==> t.rx.recv == rx.recv
    ensures t.Again? ==> |t.rx.recv| < |rx.recv|
  {
    var r, n := rx.recv, HeadLength(rx.recv, 0);
    if n < 0 then Stop(rx.(log := rx.log + [ErrorEvent]))
    else if n == 0 then Stop(rx)
    else match f(r[..n])
      case Malformed => Stop(rx.(log := rx.log + [ErrorEvent]))
      case Head(chunked, _) =>
        var m := MessageLength(f(r[..n]), n);
        if chunked then ChunkedTurn(r, rx.log, n, m) else PlainTurn(r, rx.log, n, m, false)
  }

  /** http_cb on MG_EV_READ, for any parser of heads. */
  function OnRead(f: HeadParser, rx: Rx): (rx': Rx)
    requires |rx.recv| < 0x1_0000_0000
    ensures |rx'.recv| <= |rx.recv|
    decreases |rx.recv|
  {
    match OneTurn(f, rx)
    case Stop(rx') => rx'
    case Again(rx') => OnRead(f, rx')
  }

  function Receive(f: HeadParser, rx: Rx, chunk: seq<byte>): (rx': Rx)
    requires |rx.recv| + |chunk| < 0x1_0000_0000
    ensures |rx'.recv| <= |rx.recv| + |chunk|
  {
    OnRead(f, rx.(recv := rx.recv + chunk))
  }

  function ReceiveAll(f: HeadParser, rx: Rx, pieces: seq<seq<byte>>): (rx': Rx)
    requires |rx.recv| + |Concat(pieces)| < 0x1_0000_0000
    decreases |pieces|
  {
    if pieces == [] then rx else ReceiveAll(f, Receive(f, rx, pieces[0]), pieces[1..])
  }

  /** An error counts as a message, so that none can pass unnoticed. */
  function MessageOf(e: Event): (ms: seq<seq<byte>>) {
    if e.MsgEvent? then [e.body] else if e.ErrorEvent? then [[]] else []
  }

  function Messages(log: seq<Event>): (ms: seq<seq<byte>>) {
    if log == [] then [] else MessageOf(log[0]) + Messages(log[1..])
  }

  lemma {:induction false} MessagesAppend(a: seq<Event>, b: seq<Event>)
    ensures Messages(a + b) == Messages(a) + Messages(b)
  {
    if a == [] {
      assert a + b == b;
    } else {
      hide MessageOf;
      MessagesAppend(a[1..], b);
      assert (a + b)[0] == a[0] && (a + b)[1..] == a[1..] + b;
      ConcatAssociates(MessageOf(a[0]), Messages(a[1..]), Messages(b));
    }
  }

  lemma {:induction false} NoMessageInChunks(cs: seq<seq<byte>>)
    ensures Messages(ChunkEvents(cs)) == []
  {
    if cs != [] {
      NoMessageInChunks(cs[1..]);
      assert ChunkEvents(cs)[1..] == ChunkEvents(cs[1..]);
    }
  }

  /** A complete head. */
  ghost predicate HeadOk(head: seq<byte>) {
    HeadLength(head, 0) == |head| > 0
  }

  lemma {:induction false} HeadOfMore(head: seq<byte>, more: seq<byte>, i: nat)
    requires i <= |head| && HeadLength(head, i) == |head| && i < |head|
    ensures HeadLength(head + more, i) == |head|
    decreases |head| - i
  {
    if HeadLength(head, i) != i + 1 {
      HeadOfMore(head, more, i + 1);
    }
  }

  lemma {:induction false} HeadOfLess(head: seq<byte>, k: nat, i: nat)
    requires i <= k < |head| && HeadLength(head, i) == |head|
    ensures HeadLength(head[..k], i) == 0
    decreases k - i
  {
    if i < k {
      HeadOfLess(head, k, i + 1);
    }
  }

  /**
   * Before its last byte `m` is not delivered and nothing is taken off the buffer; with it `body` is
   * delivered and the buffer is empty.
   */
  ghost predicate IsMessage(f: HeadParser, m: seq<byte>, body: seq<byte>) {
    && 0 < |m| < 0x1_0000_0000
    && (forall k: nat, log :: k < |m| ==> Waits(f, m[..k], log))
    && (forall log :: Delivers(f, m, body, log))
  }

  ghost predicate Waits(f: HeadParser, part: seq<byte>, log: seq<Event>)
    requires |part| < 0x1_0000_0000
  {
    var rx := OnRead(f, Rx(part, log));
    rx.recv == part && Messages(rx.log) == Messages(log)
  }

  ghost predicate Delivers(f: HeadParser, m: seq<byte>, body: seq<byte>, log: seq<Event>)
    requires |m| < 0x1_0000_0000
  {
    var rx := OnRead(f, Rx(m, log));
    rx.recv == [] && Messages(rx.log) == Messages(log) + [body]
  }

  lemma HeadComplete(head: seq<byte>, rest: seq<byte>)
    requires HeadOk(head)
    ensures HeadLength(head + rest, 0) == |head| && (head + rest)[..|head|] == head && (head + rest)[|head|..] == rest
  {
    HeadOfMore(head, rest, 0);
  }

  lemma HeadIncomplete(f: HeadParser, head: seq<byte>, k: nat, log: seq<Event>)
    requires HeadOk(head) && k < |head| < 0x1_0000_0000
    ensures Waits(f, head[..k], log)
  {
    HeadOfLess(head, k, 0);
  }

  // -------------------------------------------------------------- chunked bodies

  function Message(head: seq<byte>, cs: seq<seq<byte>>): (m: seq<byte>) {
    head + Body(cs)
  }

  /** The head announces a chunked body and no length: a POST or PUT request, or a response. */
  ghost predicate ChunkedHead(f: HeadParser, head: seq<byte>) {
    HeadOk(head) && f(head) == Head(true, None)
  }

  /** Before the last byte there is no message, and nothing is taken off the buffer. */
  lemma NothingBeforeTheEnd(f: HeadParser, head: seq<byte>, cs: seq<seq<byte>>, k: nat, log: seq<Event>)
    requires ChunkedHead(f, head) && ChunksOk(cs) && |Message(head, cs)| < 0x1_0000_0000 && k < |Message(head, cs)|
    ensures Waits(f, Message(head, cs)[..k], log)
  {
    hide Body, Walk, Messages, HeadLength, ChunkEvents;
    var r := Message(head, cs)[..k];
    if k < |head| {
      assert r == head[..k];
      HeadIncomplete(f, head, k, log);
    } else {
      var b := Body(cs)[..k - |head|];
      assert r == head + b;
      PartIsNotFinished(cs, k - |head|);
      UnfinishedWaits(f, head, b, log);
    }
  }

  lemma UnfinishedWaits(f: HeadParser, head: seq<byte>, b: seq<byte>, log: seq<Event>)
    requires ChunkedHead(f, head) && |head + b| < 0xFFFF_FFFF && !Walk(b).last
    ensures Waits(f, head + b, log)
  {
    hide Walk, Messages, HeadLength, ChunkEvents;
    HeadComplete(head, b);
    var es := ChunkEvents(Walk(b).chunks);
    NoMessageInChunks(Walk(b).chunks);
    MessagesAppend(log, es);
    assert log + es + [] == log + es && Messages(log) + [] == Messages(log);
    assert OneTurn(f, Rx(head + b, log)) == Stop(Rx(head + b, log + es));
  }

  /** With the last byte the message is delivered, its body the concatenation of the chunks, and the buffer is empty. */
  lemma MessageAtTheEnd(f: HeadParser, head: seq<byte>, cs: seq<seq<byte>>, log: seq<Event>)
    requires ChunkedHead(f, head) && ChunksOk(cs) && |Message(head, cs)| < 0x1_0000_0000
    ensures Delivers(f, Message(head, cs), Concat(cs), log)
  {
    hide Body, Walk, Compact, Messages, HeadLength, ChunkEvents;
    var r, b := Message(head, cs), Body(cs);
    HeadComplete(head, b);
    BodyIsCompacted(cs, []);
    assert b + [] == b;
    var es := ChunkEvents(cs + [[]]);
    NoMessageInChunks(cs + [[]]);
    MessagesAppend(log, es);
    MessagesAppend(log + es, [MsgEvent(Concat(cs))]);
    OneMessage(Concat(cs));
    assert r[|head| + |Concat(cs)|..|r| - (|b| - |Concat(cs)|)] == [];
    assert OneTurn(f, Rx(r, log)) == Again(Rx([], log + es + [MsgEvent(Concat(cs))]));
    NothingIsRead(f, log + es + [MsgEvent(Concat(cs))]);
  }

  lemma NothingIsRead(f: HeadParser, log: seq<Event>)
    ensures OnRead(f, Rx([], log)) == Rx([], log)
  {
  }

  lemma OneMessage(body: seq<byte>)
    ensures Messages([MsgEvent(body)]) == [body]
  {
    assert [MsgEvent(body)][1..] == [];
  }

  // ---------------------------------------------------------- bodies with a length

  /** The head announces a body of this length. */
  ghost predicate PlainHead(f: HeadParser, head: seq<byte>, n: nat) {
    HeadOk(head) && f(head) == Head(false, Some(n))
  }

  lemma PlainMessageWaits(f: HeadParser, head: seq<byte>, body: seq<byte>, k: nat, log: seq<Event>)
    requires PlainHead(f, head, |body|) && |head + body| < 0x1_0000_0000 && k < |head + body|
    ensures Waits(f, (head + body)[..k], log)
  {
    hide Messages, HeadLength;
    var r := (head + body)[..k];
    if k < |head| {
      assert r == head[..k];
      HeadIncomplete(f, head, k, log);
    } else {
      var b := body[..k - |head|];
      assert r == head + b;
      HeadComplete(head, b);
      MessagesAppend(log, [ChunkEvent(b)]);
      OneChunk(b);
      assert Messages(log) + [] == Messages(log);
      assert OneTurn(f, Rx(r, log)) == Stop(Rx(r, log + [ChunkEvent(b)]));
    }
  }

  lemma OneChunk(data: seq<byte>)
    ensures Messages([ChunkEvent(data)]) == []
  {
    assert [ChunkEvent(data)][1..] == [];
  }

  /** A complete message with anything behind it: unlike a chunked one it leaves what follows as it is. */
  lemma PlainMessageIsTaken(f: HeadParser, head: seq<byte>, body: seq<byte>, rest: seq<byte>, log: seq<Event>)
    requires PlainHead(f, head, |body|) && |head + body + rest| < 0x1_0000_0000
    ensures OnRead(f, Rx(head + body + rest, log)) == OnRead(f, Rx(rest, log + [MsgEvent(body)]))
  {
    hide HeadLength;
    var r := head + body + rest;
    assert r == head + (body + rest);
    HeadComplete(head, body + rest);
    assert r[|head|..|head| + |body|] == body && r[|head| + |body|..] == rest;
    assert OneTurn(f, Rx(r, log)) == Again(Rx(rest, log + [MsgEvent(body)]));
  }

  lemma PlainMessageDelivers(f: HeadParser, head: seq<byte>, body: seq<byte>, log: seq<Event>)
    requires PlainHead(f, head, |body|) && |head + body| < 0x1_0000_0000
    ensures Delivers(f, head + body, body, log)
  {
    hide Messages, OnRead;
    assert head + body + [] == head + body;
    PlainMessageIsTaken(f, head, body, [], log);
    NothingIsRead(f, log + [MsgEvent(body)]);
    MessagesAppend(log, [MsgEvent(body)]);
    OneMessage(body);
  }

  // ------------------------------------------------------- any way of cutting it

  lemma {:induction false} EmptyReads(f: HeadParser, rx: Rx, pieces: seq<seq<byte>>)
    requires rx.recv == [] && Concat(pieces) == []
    ensures ReceiveAll(f, rx, pieces) == rx
    decreases |pieces|
  {
    hide OnRead;
    if pieces != [] {
      assert pieces[0] == [] && Concat(pieces[1..]) == [];
      assert rx.recv + [] == rx.recv;
      NothingIsRead(f, rx.log);
      EmptyReads(f, rx, pieces[1..]);
    }
  }

  lemma {:induction false} ReadsFrom(f: HeadParser, m: seq<byte>, body: seq<byte>, k: nat, pieces: seq<seq<byte>>,
      log: seq<Event>)
    requires IsMessage(f, m, body) && k < |m| && Concat(pieces) == m[k..]
    ensures var rx := ReceiveAll(f, Rx(m[..k], log), pieces);
            rx.recv == [] && Messages(rx.log) == Messages(log) + [body]
    decreases |pieces|
  {
    hide OnRead, Messages;
    var c, rest := pieces[0], Concat(pieces[1..]);
    var k' := k + |c|;
    assert c + rest == m[k..];
    assert m[..k] + c == m[..k'] && rest == m[k'..];
    if k' < |m| {
      assert Waits(f, m[..k'], log);
      ReadsFrom(f, m, body, k', pieces[1..], OnRead(f, Rx(m[..k'], log)).log);
    } else {
      assert m[..k'] == m && Delivers(f, m, body, log);
      EmptyReads(f, OnRead(f, Rx(m, log)), pieces[1..]);
    }
  }

  /** A message is delivered once, however it is cut into reads, and the buffer ends up empty. */
  lemma MessageIsDeliveredOnce(f: HeadParser, m: seq<byte>, body: seq<byte>, pieces: seq<seq<byte>>)
    requires IsMessage(f, m, body) && Concat(pieces) == m
    ensures var rx := ReceiveAll(f, Rx([], []), pieces);
            rx.recv == [] && Messages(rx.log) == [body]
  {
    hide IsMessage, OnRead;
    assert |m| > 0 by { MessageIsNotEmpty(f, m, body); }
    assert m[..0] == [] && m[0..] == m;
    ReadsFrom(f, m, body, 0, pieces, []);
  }

  lemma MessageIsNotEmpty(f: HeadParser, m: seq<byte>, body: seq<byte>)
    requires IsMessage(f, m, body)
    ensures 0 < |m| < 0x1_0000_0000
  {
  }

  /**
   * However a chunked message is cut into reads, it is delivered once, with the
   * concatenation of its chunks as its body, and the buffer ends up empty.
   */
  lemma ChunkedMessageIsDeliveredOnce(f: HeadParser, head: seq<byte>, cs: seq<seq<byte>>, pieces: seq<seq<byte>>)
    requires ChunkedHead(f, head) && ChunksOk(cs) && |Message(head, cs)| < 0x1_0000_0000
    requires Concat(pieces) == Message(head, cs)
    ensures var rx := ReceiveAll(f, Rx([], []), pieces);
            rx.recv == [] && Messages(rx.log) == [Concat(cs)]
  {
    hide Waits, Delivers, OnRead, ReceiveAll;
    var m := Message(head, cs);
    forall k: nat, log | k < |m| ensures Waits(f, m[..k], log) {
      NothingBeforeTheEnd(f, head, cs, k, log);
    }
    forall log ensures Delivers(f, m, Concat(cs), log) {
      MessageAtTheEnd(f, head, cs, log);
    }
    MessageIsDeliveredOnce(f, m, Concat(cs), pieces);
  }

  /** So is a message whose head tells the length of its body. */
  lemma PlainMessageIsDeliveredOnce(f: HeadParser, head: seq<byte>, body: seq<byte>, pieces: seq<seq<byte>>)
    requires PlainHead(f, head, |body|) && |head + body| < 0x1_0000_0000
    requires Concat(pieces) == head + body
    ensures var rx := ReceiveAll(f, Rx([], []), pieces);
            rx.recv == [] && Messages(rx.log) == [body]
  {
    hide Waits, Delivers, OnRead, ReceiveAll;
    var m := head + body;
    forall k: nat, log | k < |m| ensures Waits(f, m[..k], log) {
      PlainMessageWaits(f, head, body, k, log);
    }
    forall log ensures Delivers(f, m, body, log) {
      PlainMessageDelivers(f, head, body, log);
    }
    MessageIsDeliveredOnce(f, m, body, pieces);
  }

  // ------------------------------------------------- bytes behind a chunked message

  lemma {:induction false} BodyIsLonger(cs: seq<seq<byte>>)
    ensures |Concat(cs)| + 5 <= |Body(cs)|
  {
    if cs != [] {
      BodyIsLonger(cs[1..]);
    }
  }

  /**
   * The bytes found behind a delivered message that was followed by `rest`: as many, but from behind
   * the place its data was moved to.
   */
  function LeftBehind(head: seq<byte>, cs: seq<seq<byte>>, rest: seq<byte>): (s: seq<byte>)
    ensures |s| == |rest|
  {
    BodyIsLonger(cs);
    (Message(head, cs) + rest)[|head| + |Concat(cs)|..|head| + |Concat(cs)| + |rest|]
  }

  /**
   * What is read next is what was sent next exactly when each byte sent equals the one in its place
   * behind the moved data.
   */
  lemma FollowingBytesSurviveExactly(head: seq<byte>, cs: seq<seq<byte>>, rest: seq<byte>)
    ensures |Concat(cs)| <= |Body(cs)|
    ensures LeftBehind(head, cs, rest) == rest
            <==> forall i :: 0 <= i < |rest| ==> rest[i] == (Body(cs)[|Concat(cs)|..] + rest)[i]
  {
    hide Body;
    BodyIsLonger(cs);
    var n, left := |Concat(cs)|, LeftBehind(head, cs, rest);
    var all := Body(cs)[n..] + rest;
    forall i | 0 <= i < |rest| ensures left[i] == all[i] {
      assert (Message(head, cs) + rest)[|head| + n + i] == all[i];
    }
  }

  /** Bytes following a chunked message are not what is read next. */
  lemma FollowingBytesAreReplaced(f: HeadParser, head: seq<byte>, cs: seq<seq<byte>>, rest: seq<byte>, log: seq<Event>)
    requires ChunkedHead(f, head) && ChunksOk(cs) && |Message(head, cs)| + |rest| < 0x1_0000_0000
    ensures OnRead(f, Rx(Message(head, cs) + rest, log)) ==
              OnRead(f, Rx(LeftBehind(head, cs, rest), log + ChunkEvents(cs + [[]]) + [MsgEvent(Concat(cs))]))
  {
    hide Body, Walk, Compact, HeadLength;
    var r, b := Message(head, cs) + rest, Body(cs);
    assert r == head + (b + rest);
    HeadComplete(head, b + rest);
    BodyIsCompacted(cs, rest);
    BodyIsLonger(cs);
    assert OneTurn(f, Rx(r, log)) ==
           Again(Rx(LeftBehind(head, cs, rest), log + ChunkEvents(cs + [[]]) + [MsgEvent(Concat(cs))]));
  }

  /** For instance, a byte behind a one-chunk message turns into the end of its size line. */
  lemma AFollowingByteIsReplaced(head: seq<byte>, x: byte, y: byte)
    requires y != CR
    ensures LeftBehind(head, [[x]], [y]) == [CR] != [y]
  {
    var b := Body([[x]]);
    assert b == Chunk([x]) + Body([[x]][1..]);
    assert b[1] == Chunk([x])[1] == CR;
    assert Concat([[x]]) == [x] + Concat([[x]][1..]) == [x];
    assert (Message(head, [[x]]) + [y])[|head| + 1] == b[1];
  }
}
