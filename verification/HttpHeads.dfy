// Where the head of an HTTP message ends, said of the text alone, and what the
// message loop tells its application besides the messages.
module HttpHeads {
  import opened Bytes
  import opened Wrappers
  import opened HttpChunks

  // ------------------------------------------------------------ the end of the head

  /** A control octet other than the line breaks cannot be in a head. */
  predicate Forbidden(c: byte) {
    (c < 32 && c != 13 && c != 10) || c == 127
  }

  /** The first `n` octets end in an empty line: LF LF, or LF CR LF with something in front. */
  predicate EndsInEmptyLine(b: seq<byte>, n: nat) {
    && 2 <= n <= |b| && b[n - 1] == 10
    && (b[n - 2] == 10 || (n > 4 && b[n - 2] == 13 && b[n - 3] == 10))
  }

  /** Up to `n` there is no forbidden octet. */
  predicate Clean(b: seq<byte>, n: nat) {
    n <= |b| && forall k :: 0 <= k < n ==> !Forbidden(b[k])
  }

  /** The head ends in front of `n`, and not before. */
  predicate HeadEndsAt(b: seq<byte>, n: nat) {
    EndsInEmptyLine(b, n) && Clean(b, n) && forall m :: 0 <= m < n ==> !EndsInEmptyLine(b, m)
  }

  /** A forbidden octet stands at `k`, and the head has not ended before. */
  predicate SpoiltAt(b: seq<byte>, k: nat) {
    k < |b| && Forbidden(b[k]) && Clean(b, k) && forall m :: 0 <= m <= k ==> !EndsInEmptyLine(b, m)
  }

  lemma {:induction false} HeadLengthFrom(b: seq<byte>, i: nat)
    requires i <= |b| && Clean(b, i) && forall m :: 0 <= m <= i ==> !EndsInEmptyLine(b, m)
    ensures forall n: nat {:trigger HeadEndsAt(b, n)} :: n > 0 ==> (HeadLength(b, i) == n <==> HeadEndsAt(b, n))
    ensures HeadLength(b, i) == -1 <==> exists k: nat :: SpoiltAt(b, k)
    ensures HeadLength(b, i) >= -1
    decreases |b| - i
  {
    if i == |b| {
      forall n: nat ensures !HeadEndsAt(b, n) {
      }
      forall k: nat ensures !SpoiltAt(b, k) {
      }
    } else if Forbidden(b[i]) {
      assert SpoiltAt(b, i);
      forall n: nat ensures !HeadEndsAt(b, n) {
      }
    } else if EndsInEmptyLine(b, i + 1) {
      assert HeadEndsAt(b, i + 1);
      forall n: nat ensures HeadEndsAt(b, n) ==> n == i + 1 {
      }
      forall k: nat ensures !SpoiltAt(b, k) {
      }
    } else {
      HeadLengthFrom(b, i + 1);
    }
  }

  /**
   * mg_http_get_request_len, exactly: the least length at which the text ends in an empty line, if no
   * forbidden octet comes before; -1 if one does; 0 otherwise.
   */
  lemma HeadLengthExactly(b: seq<byte>)
    ensures forall n: nat {:trigger HeadEndsAt(b, n)} :: n > 0 ==> (HeadLength(b, 0) == n <==> HeadEndsAt(b, n))
    ensures HeadLength(b, 0) == -1 <==> exists k: nat :: SpoiltAt(b, k)
    ensures HeadLength(b, 0) >= -1
  {
    HeadLengthFrom(b, 0);
  }

  // ------------------------------------------------------------------ heads as text

  /** A line as it is written: printable, or from beyond ASCII, and not empty. */
  predicate LineOk(l: seq<byte>) {
    l != [] && forall k :: 0 <= k < |l| ==> (32 <= l[k] && l[k] != 127)
  }

  predicate LinesOk(ls: seq<seq<byte>>) {
    forall i :: 0 <= i < |ls| ==> LineOk(ls[i])
  }

  /** The start line and the header lines, each ended by CR LF, and an empty line. */
  function HeadText(ls: seq<seq<byte>>): (b: seq<byte>)
    ensures |b| >= 2
  {
    if ls == [] then [13, 10] else ls[0] + [13, 10] + HeadText(ls[1..])
  }

  /** Within a line the scan goes on. */
  lemma {:induction false} LineIsPassed(b: seq<byte>, i: nat, n: nat)
    requires i + n <= |b| && forall k :: i <= k < i + n ==> 32 <= b[k] && b[k] != 127
    ensures HeadLength(b, i) == HeadLength(b, i + n)
    decreases n
  {
    if n > 0 { LineIsPassed(b, i + 1, n - 1); }
  }

  /** So it does past the line's end, as the line is not empty. */
  lemma LineEndIsPassed(b: seq<byte>, i: nat)
    requires 0 < i && i + 2 <= |b| && b[i] == 13 && b[i + 1] == 10 && 32 <= b[i - 1]
    ensures HeadLength(b, i) == HeadLength(b, i + 2)
  {
    assert HeadLength(b, i) == HeadLength(b, i + 1);
  }

  lemma EmptyLineEnds(b: seq<byte>, i: nat)
    requires 3 <= i && i + 2 == |b| && b[i] == 13 && b[i + 1] == 10 && b[i - 1] == 10
    ensures HeadLength(b, i) == |b|
  {
    assert HeadLength(b, i) == HeadLength(b, i + 1);
  }

  lemma TextParts(before: seq<byte>, l: seq<byte>, rest: seq<byte>)
    ensures var b, i := before + (l + [13, 10] + rest), |before|;
            && (forall k :: i <= k < i + |l| ==> b[k] == l[k - i])
            && b[i + |l|] == 13 && b[i + |l| + 1] == 10
            && b == (before + l + [13, 10]) + rest
  {
  }

  lemma {:induction false} HeadTextFrom(before: seq<byte>, ls: seq<seq<byte>>)
    requires LinesOk(ls) && |before| >= 3 && before[|before| - 1] == 10
    ensures var b := before + HeadText(ls); HeadLength(b, |before|) == |b|
    decreases |ls|
  {
    hide HeadLength;
    var b, i := before + HeadText(ls), |before|;
    if ls == [] {
      EmptyLineEnds(b, i);
    } else {
      OneLine(before, ls);
      HeadTextFrom(before + ls[0] + [13, 10], ls[1..]);
    }
  }

  lemma OneLine(before: seq<byte>, ls: seq<seq<byte>>)
    requires LinesOk(ls) && ls != []
    ensures var b := before + HeadText(ls);
            && b == (before + ls[0] + [13, 10]) + HeadText(ls[1..])
            && HeadLength(b, |before|) == HeadLength(b, |before| + |ls[0]| + 2)
  {
    hide HeadLength;
    var b, i, l := before + HeadText(ls), |before|, ls[0];
    assert LineOk(l);
    TextParts(before, l, HeadText(ls[1..]));
    LineIsPassed(b, i, |l|);
    assert b[i + |l| - 1] == l[|l| - 1];
    LineEndIsPassed(b, i + |l|);
  }

  /** A start line and any header lines are a head, and no part of them is. */
  lemma TextIsAHead(ls: seq<seq<byte>>)
    requires ls != [] && LinesOk(ls)
    ensures HeadOk(HeadText(ls))
  {
    hide HeadLength;
    var b, l := HeadText(ls), ls[0];
    assert LineOk(l);
    assert [] + b == b;
    OneLine([], ls);
    var before := [] + l + [13, 10];
    assert before[|before| - 1] == 10;
    HeadTextFrom(before, ls[1..]);
  }

  /** A message with such a head: however it is cut, it is delivered once. */
  lemma TextMessagesAreDeliveredOnce(f: HeadParser, ls: seq<seq<byte>>, cs: seq<seq<byte>>, body: seq<byte>,
      pieces: seq<seq<byte>>)
    requires ls != [] && LinesOk(ls) && ChunksOk(cs)
    requires |HeadText(ls)| + |Body(cs)| < 0x1_0000_0000 && |HeadText(ls)| + |body| < 0x1_0000_0000
    ensures f(HeadText(ls)) == Head(true, None) && Concat(pieces) == HeadText(ls) + Body(cs) ==>
              var rx := ReceiveAll(f, Rx([], []), pieces);
              rx.recv == [] && Messages(rx.log) == [Concat(cs)]
    ensures f(HeadText(ls)) == Head(false, Some(|body|)) && Concat(pieces) == HeadText(ls) + body ==>
              var rx := ReceiveAll(f, Rx([], []), pieces);
              rx.recv == [] && Messages(rx.log) == [body]
  {
    hide HeadLength, ReceiveAll, Messages, Body;
    TextIsAHead(ls);
    if f(HeadText(ls)) == Head(true, None) && Concat(pieces) == HeadText(ls) + Body(cs) {
      ChunkedMessageIsDeliveredOnce(f, HeadText(ls), cs, pieces);
    }
    if f(HeadText(ls)) == Head(false, Some(|body|)) && Concat(pieces) == HeadText(ls) + body {
      PlainMessageIsDeliveredOnce(f, HeadText(ls), body, pieces);
    }
  }

  // --------------------------------------------- what else the application is told

  lemma {:induction false} OneEventAChunk(cs: seq<seq<byte>>)
    ensures |ChunkEvents(cs)| == |cs|
    ensures forall i :: 0 <= i < |cs| ==> ChunkEvents(cs)[i] == ChunkEvent(cs[i])
  {
    if cs != [] {
      OneEventAChunk(cs[1..]);
    }
  }

  /** A chunked message that arrives at once is told chunk by chunk, the empty one included, and then whole. */
  lemma ChunksAreTold(f: HeadParser, head: seq<byte>, cs: seq<seq<byte>>)
    requires ChunkedHead(f, head) && ChunksOk(cs) && |Message(head, cs)| < 0x1_0000_0000
    ensures var log := OnRead(f, Rx(Message(head, cs), [])).log;
            && |log| == |cs| + 2 && log[|cs|] == ChunkEvent([]) && log[|cs| + 1] == MsgEvent(Concat(cs))
            && forall i :: 0 <= i < |cs| ==> log[i] == ChunkEvent(cs[i])
  {
    hide Body, HeadLength, ChunkEvents, LeftBehind;
    FollowingBytesAreReplaced(f, head, cs, [], []);
    assert Message(head, cs) + [] == Message(head, cs);
    var left := LeftBehind(head, cs, []);
    assert left == [];
    var es := ChunkEvents(cs + [[]]);
    NothingIsRead(f, [] + es + [MsgEvent(Concat(cs))]);
    OneEventAChunk(cs + [[]]);
  }

  /** Of a message with a length, what there is of its body is told as a chunk while it is not complete. */
  lemma PartIsTold(f: HeadParser, head: seq<byte>, n: nat, part: seq<byte>, log: seq<Event>)
    requires PlainHead(f, head, n) && |part| < n && |head + part| < 0x1_0000_0000
    ensures OnRead(f, Rx(head + part, log)) == Rx(head + part, log + [ChunkEvent(part)])
  {
    hide HeadLength;
    HeadComplete(head, part);
    assert OneTurn(f, Rx(head + part, log)) == Stop(Rx(head + part, log + [ChunkEvent(part)]));
  }

  /** A body without a length, which only the end of the connection ends, is told as a chunk in every read. */
  lemma EndlessBodyIsTold(f: HeadParser, head: seq<byte>, part: seq<byte>, log: seq<Event>)
    requires HeadOk(head) && f(head) == Head(false, None) && |head + part| < 0xFFFF_FFFF
    ensures OnRead(f, Rx(head + part, log)) == Rx(head + part, log + [ChunkEvent(part)])
  {
    hide HeadLength;
    HeadComplete(head, part);
    assert OneTurn(f, Rx(head + part, log)) == Stop(Rx(head + part, log + [ChunkEvent(part)]));
  }

  /** How many chunks are complete in the first `m` octets of a body. */
  function WholeIn(cs: seq<seq<byte>>, m: nat): (n: nat)
    ensures n <= |cs|
  {
    if cs == [] || m < |Chunk(cs[0])| then 0 else 1 + WholeIn(cs[1..], m - |Chunk(cs[0])|)
  }

  lemma NoneIsWalked(b: seq<byte>)
    requires |b| < 0x1_0000_0000 && ChunkLength(b).0 == 0
    ensures Walk(b) == Walked([], false)
  {
    hide ChunkLength;
  }

  lemma {:induction false} PartIsWalked(cs: seq<seq<byte>>, m: nat)
    requires ChunksOk(cs) && m < |Body(cs)| < 0x1_0000_0000
    ensures Walk(Body(cs)[..m]) == Walked(cs[..WholeIn(cs, m)], false)
    decreases |cs|
  {
    hide ChunkLength, Chunk, Walk, Compact, Hex;
    var b := Body(cs)[..m];
    var c := if cs == [] then Chunk([]) else Chunk(cs[0]);
    if m < |c| {
      assert b == c[..m];
      PartIsNotRecognised(if cs == [] then [] else cs[0], m);
      NoneIsWalked(b);
    } else {
      var more := Body(cs[1..])[..m - |c|];
      assert b == c + more;
      LongChunk(cs[0]);
      ChunkIsRecognised(cs[0], more);
      PartIsWalked(cs[1..], m - |c|);
      hide Body;
      OneChunkOff(c, more, cs[0], |Hex(|cs[0]|)| + 2);
      var k := WholeIn(cs[1..], m - |c|);
      assert [cs[0]] + cs[1..][..k] == cs[..k + 1];
    }
  }

  /** Of a chunked body that is not complete every read tells the chunks that are, from the first one on. */
  lemma CompleteChunksAreTold(f: HeadParser, head: seq<byte>, cs: seq<seq<byte>>, m: nat, log: seq<Event>)
    requires ChunkedHead(f, head) && ChunksOk(cs) && m < |Body(cs)| && |Message(head, cs)| < 0x1_0000_0000
    ensures var r, n := head + Body(cs)[..m], WholeIn(cs, m);
            var rx := OnRead(f, Rx(r, log));
            && rx.recv == r && |rx.log| == |log| + n && rx.log[..|log|] == log
            && forall i :: 0 <= i < n ==> rx.log[|log| + i] == ChunkEvent(cs[i])
  {
    hide Body, Walk, HeadLength, ChunkEvents;
    var b, n := Body(cs)[..m], WholeIn(cs, m);
    PartIsWalked(cs, m);
    HeadComplete(head, b);
    OneEventAChunk(cs[..n]);
    var es := ChunkEvents(cs[..n]);
    assert log + es + [] == log + es;
    assert OneTurn(f, Rx(head + b, log)) == Stop(Rx(head + b, log + es));
  }

  /** Text that is no head, or a head that is not understood, is told as an error and left where it is. */
  lemma ErrorsAreToldExactly(f: HeadParser, r: seq<byte>, log: seq<Event>)
    requires |r| < 0x1_0000_0000
    ensures OneTurn(f, Rx(r, log)) == Stop(Rx(r, log + [ErrorEvent])) <==>
              (exists k: nat :: SpoiltAt(r, k)) || (exists n: nat :: HeadEndsAt(r, n) && f(r[..n]) == Malformed)
  {
    hide HeadEndsAt, SpoiltAt, HeadLength;
    HeadLengthExactly(r);
    var n := HeadLength(r, 0);
    if n > 0 {
      HeadEnds(r, n);
      NoErrorBehindAHead(f, r, log, n);
    } else if n == 0 {
      forall m: nat ensures !HeadEndsAt(r, m) {
        if m == 0 { EndsBehindTwo(r); }
      }
      assert |log + [ErrorEvent]| != |log|;
    }
  }

  lemma EndsBehindTwo(r: seq<byte>)
    ensures !HeadEndsAt(r, 0)
  {
  }

  lemma HeadEnds(r: seq<byte>, n: nat)
    requires n > 0 && HeadLength(r, 0) == n
    ensures HeadEndsAt(r, n) && forall m: nat :: HeadEndsAt(r, m) ==> m == n
    ensures forall k: nat :: !SpoiltAt(r, k)
  {
    HeadLengthExactly(r);
    forall m: nat | HeadEndsAt(r, m) ensures m == n {
      EndsBehindTwo(r);
    }
  }

  lemma NoErrorBehindAHead(f: HeadParser, r: seq<byte>, log: seq<Event>, n: nat)
    requires |r| < 0x1_0000_0000 && n > 0 && HeadLength(r, 0) == n
    ensures OneTurn(f, Rx(r, log)) == Stop(Rx(r, log + [ErrorEvent])) <==> f(r[..n]) == Malformed
  {
    hide HeadLength, Walk, Compact;
    if f(r[..n]).Head? {
      var m := MessageLength(f(r[..n]), n);
      if f(r[..n]).chunked {
        var es := ChunkEvents(Walk(r[n..]).chunks);
        OneEventAChunk(Walk(r[n..]).chunks);
        NoErrorInChunks(log, es, Walk(r[n..]).chunks);
        assert log + es + [] == log + es;
      } else {
        assert (log + [ChunkEvent(r[n..])])[|log|] != (log + [ErrorEvent])[|log|];
      }
    }
  }

  lemma NoErrorInChunks(log: seq<Event>, es: seq<Event>, cs: seq<seq<byte>>)
    requires |es| == |cs| && forall i :: 0 <= i < |cs| ==> es[i] == ChunkEvent(cs[i])
    ensures log + es != log + [ErrorEvent]
  {
    if |es| == 1 {
      assert (log + es)[|log|] == es[0] && (log + [ErrorEvent])[|log|] == ErrorEvent;
    } else {
      assert |log + es| != |log + [ErrorEvent]|;
    }
  }

  // ------------------------------------------------------------------- sizes in hex

  /** A hex digit's worth, in either case. */
  function Hexits(upper: bool): (s: string)
    ensures |s| == 16
  {
    if upper then "0123456789ABCDEF" else "0123456789abcdef"
  }

  lemma NimbleReadsBothCases(d: nat, upper: bool)
    requires d < 16
    ensures Hexits(upper)[d] as int < 256 && Nimble(Hexits(upper)[d] as int) == d
  {
  }

  function Written(ds: seq<nat>, upper: bool): (s: seq<byte>)
    requires forall i :: 0 <= i < |ds| ==> ds[i] < 16
    ensures |s| == |ds|
  {
    if ds == [] then []
    else
      NimbleReadsBothCases(ds[|ds| - 1], upper);
      Written(ds[..|ds| - 1], upper) + [Hexits(upper)[ds[|ds| - 1]] as int]
  }

  function Value(ds: seq<nat>): (n: nat) {
    if ds == [] then 0 else 16 * Value(ds[..|ds| - 1]) + ds[|ds| - 1]
  }

  lemma {:induction false} ValueFits(ds: seq<nat>)
    requires forall i :: 0 <= i < |ds| ==> ds[i] < 16
    ensures Value(ds) < Pow2(4 * |ds|)
  {
    if ds != [] {
      var front := ds[..|ds| - 1];
      ValueFits(front);
      Pow2Plus4(4 * |front|);
      assert 4 * |ds| == 4 * |front| + 4;
    }
  }

  lemma EightDigitsFit(front: seq<nat>)
    requires |front| <= 7 && Value(front) < Pow2(4 * |front|)
    ensures Value(front) < 0x1000_0000
  {
    var n := |front|;
    assert Pow2(4) == 16;
    assert Pow2(8) == 256;
    assert Pow2(12) == 0x1000;
    assert Pow2(16) == 0x1_0000;
    assert Pow2(20) == 0x10_0000;
    assert Pow2(24) == 0x100_0000;
    assert Pow2(28) == 0x1000_0000;
    if n == 0 {
    } else if n == 1 {
    } else if n == 2 {
    } else if n == 3 {
    } else if n == 4 {
    } else if n == 5 {
    } else if n == 6 {
    } else {
    }
  }

  /** Up to eight hex digits are read for what they are worth, whichever case a peer writes. */
  lemma {:induction false} HexIsReadInEitherCase(ds: seq<nat>, upper: bool)
    requires |ds| <= 8 && forall i :: 0 <= i < |ds| ==> ds[i] < 16
    ensures Unhex(Written(ds, upper)) == Value(ds)
  {
    if ds != [] {
      var front, d := ds[..|ds| - 1], ds[|ds| - 1];
      HexIsReadInEitherCase(front, upper);
      NimbleReadsBothCases(d, upper);
      ValueFits(front);
      EightDigitsFit(front);
      OneMoreDigit(Written(front, upper), Hexits(upper)[d] as int, Value(front));
    }
  }
}
