// The in-place half of components/mongoose/src/ws.c: frames are unmasked where
// they were received, and built at the end of the send buffer.
module WsFrames {
  import opened Bytes
  import opened IoBuf
  import opened WsCodec

  /** struct ws_msg */
  datatype WsMsg = WsMsg(flags: byte, headerLen: nat, dataLen: nat)

  /** The masking loops: octet i of the range is combined with octet i mod 4 of the key in front of it. */
  method XorRange(a: array<byte>, p: nat, len: nat)
    requires 4 <= p && p + len <= a.Length
    modifies a
    ensures var s := old(a[..]); a[..] == Splice(s, p, Mask(s[p..p + len], s[p - 4..p]))
  {
    hide Mask, Xor;
    ghost var s := a[..];
    ghost var key, data := s[p - 4..p], s[p..p + len];
    var i := 0;
    MaskPrefix(data, key, 0);
    while i < len
      invariant 0 <= i <= len
      invariant a[..] == Splice(s, p, Mask(data[..i], key))
    {
      MaskPrefix(data, key, i);
      assert a[p + i] == data[i] && a[p - 4 + i % 4] == key[i % 4];
      a[p + i] := Xor(a[p + i], a[p - 4 + i % 4]);
      i := i + 1;
    }
    assert data[..len] == data;
  }

  lemma MaskPrefix(data: seq<byte>, key: Key, i: nat)
    requires i <= |data|
    ensures Mask(data[..0], key) == []
    ensures i < |data| ==> Mask(data[..i + 1], key) == Mask(data[..i], key) + [Xor(data[i], key[i % 4])]
  {
    hide Xor;
    if i < |data| {
      assert data[..i + 1][..i] == data[..i];
    }
  }

  /** The header half of ws_process. */
  method ReadHeader(buf: seq<byte>) returns (msg: WsMsg, maskLen: nat)
    ensures (msg.headerLen, msg.dataLen) == Lengths(buf)
    ensures |buf| >= 2 ==> msg.flags == buf[0] && maskLen == MaskLen(buf)
  {
    maskLen := 0;
    msg := WsMsg(0, 0, 0);
    if |buf| >= 2 {
      var n := buf[1] % 128;
      maskLen := if buf[1] >= 128 then 4 else 0;
      msg := WsMsg(buf[0], 0, 0);
      if n < 126 && |buf| >= maskLen {
        msg := msg.(dataLen := n, headerLen := 2 + maskLen);
      } else if n == 126 && |buf| >= 4 + maskLen {
        msg := msg.(headerLen := 4 + maskLen, dataLen := Num16(buf, 2));
      } else if |buf| >= 10 + maskLen {
        msg := msg.(headerLen := 10 + maskLen,
                    dataLen := Num32(buf, 6));
      }
    }
  }

  /**
   * What ws_process leaves in memory when run on the bytes `buf` at `ofs`: a complete frame is
   * unmasked, anything less is left alone.
   */
  function Unmasked(s: seq<byte>, ofs: nat, buf: seq<byte>): (r: seq<byte>)
    requires ofs + |buf| <= |s|
    ensures |r| == |s|
  {
    match Process(buf)
    case Incomplete => s
    case Frame(_, h, payload) => Splice(s, ofs + h, payload)
  }

  /** The payload half of ws_process. */
  method UnmaskPayload(a: array<byte>, p: nat, len: nat, maskLen: nat)
    requires p + len <= a.Length && (maskLen == 0 || (maskLen == 4 <= p))
    modifies a
    ensures var s := old(a[..]);
            a[..] == Splice(s, p, if maskLen > 0 then Mask(s[p..p + len], s[p - 4..p]) else s[p..p + len])
  {
    SpliceSelf(a[..], p, len);
    if maskLen > 0 {
      XorRange(a, p, len);
    }
  }

  /** The payload of a complete frame: masked or plain. */
  function PayloadAt(buf: seq<byte>, h: nat, d: nat): (p: seq<byte>)
    requires |buf| >= 2 && 2 + MaskLen(buf) <= h && h + d <= |buf|
    ensures |p| == d
  {
    if MaskLen(buf) > 0 then Mask(buf[h..h + d], buf[h - 4..h]) else buf[h..h + d]
  }

  lemma ProcessIs(buf: seq<byte>)
    ensures var (h, d) := Lengths(buf);
            Process(buf) ==
              if h == 0 || d > MAX_DATA_LEN || h + d > |buf| then Incomplete
              else Frame(buf[0], h, PayloadAt(buf, h, d))
  {
    hide Mask;
  }

  /** The same payload, found in the memory around the frame. */
  lemma PayloadInMemory(s: seq<byte>, ofs: nat, buf: seq<byte>, h: nat, d: nat)
    requires LiesAt(buf, s, ofs)
    requires |buf| >= 2 && 2 + MaskLen(buf) <= h && h + d <= |buf|
    ensures PayloadAt(buf, h, d) ==
              if MaskLen(buf) > 0 then Mask(s[ofs + h..ofs + h + d], s[ofs + h - 4..ofs + h])
              else s[ofs + h..ofs + h + d]
  {
    hide Mask, MaskLen;
    SliceLiesAt(buf, s, ofs, h, h + d);
    if MaskLen(buf) > 0 {
      SliceLiesAt(buf, s, ofs, h - 4, h);
    }
  }

  method HeaderAt(a: array<byte>, ofs: nat, len: nat, ghost buf: seq<byte>) returns (msg: WsMsg, maskLen: nat)
    requires len == |buf| && LiesAt(buf, a[..], ofs)
    ensures (msg.headerLen, msg.dataLen) == Lengths(buf)
    ensures |buf| >= 2 ==> msg.flags == buf[0] && maskLen == MaskLen(buf)
  {
    assert a[ofs..ofs + len] == buf;
    msg, maskLen := ReadHeader(a[ofs..ofs + len]);
  }

  method PayloadInPlace(a: array<byte>, ofs: nat, h: nat, d: nat, maskLen: nat, ghost buf: seq<byte>)
    requires LiesAt(buf, a[..], ofs)
    requires |buf| >= 2 && 2 + MaskLen(buf) <= h && h + d <= |buf| && maskLen == MaskLen(buf)
    modifies a
    ensures a[..] == Splice(old(a[..]), ofs + h, PayloadAt(buf, h, d))
  {
    hide Mask, Splice, PayloadAt;
    PayloadInMemory(a[..], ofs, buf, h, d);
    UnmaskPayload(a, ofs + h, d, maskLen);
  }

  /** ws_process on the bytes `buf` that lie at `ofs`. */
  method WsProcess(a: array<byte>, ofs: nat, len: nat, ghost buf: seq<byte>) returns (total: nat, msg: WsMsg)
    requires len == |buf| && LiesAt(buf, a[..], ofs)
    modifies a
    ensures a[..] == Unmasked(old(a[..]), ofs, buf)
    ensures var f := Process(buf);
            && total == f.Total()
            && (total > 0 ==> f.Frame? && msg == WsMsg(f.flags, f.hdr, |f.payload|))
  {
    hide Mask, Lengths, Process, PayloadAt, Splice;
    ProcessIs(buf);
    var maskLen;
    msg, maskLen := HeaderAt(a, ofs, len, buf);
    if msg.dataLen > MAX_DATA_LEN { return 0, msg; }
    if msg.headerLen + msg.dataLen > len { return 0, msg; }
    total := msg.headerLen + msg.dataLen;
    if total > 0 {
      PayloadInPlace(a, ofs, msg.headerLen, msg.dataLen, maskLen, buf);
    }
  }

  /** mkhdr; the key stands for what mg_random delivers. */
  method MkHdr(len: nat, op: byte, isClient: bool, key: Key) returns (n: nat, buf: array<byte>)
    requires len < TWO_32
    ensures fresh(buf) && n <= buf.Length == 14
    ensures buf[..n] == FrameHeader(len, op, isClient, key)
  {
    hide LengthField, Be16, Be32;
    buf := new byte[14](i => 0);
    buf[0] := WithFin(op);
    n := WriteLength(buf, len);
    if isClient {
      MarkMasked(buf, n, len);
      Memcpy(buf, n, key);
      n := n + 4;
    }
  }

  method MarkMasked(buf: array<byte>, n: nat, ghost len: nat)
    requires 2 <= n <= buf.Length && len < TWO_32 && buf[..n] == [buf[0]] + LengthField(len, 0)
    modifies buf
    ensures buf[..n] == [old(buf[0])] + LengthField(len, 128) && buf[0] == old(buf[0])
  {
    MaskBit(len);
    hide LengthField;
    ghost var f := LengthField(len, 0);
    assert buf[1] == f[0] && forall i :: 1 <= i < n ==> buf[i] == f[i - 1];
    buf[1] := buf[1] + 128;
  }

  /** The mask bit in the first length byte. */
  lemma MaskBit(len: nat)
    requires len < TWO_32
    ensures var f := LengthField(len, 0);
            f[0] < 128 && LengthField(len, 128) == [f[0] + 128] + f[1..]
  {
  }

  /** The length behind the flags. */
  method WriteLength(buf: array<byte>, len: nat) returns (n: nat)
    requires buf.Length == 14 && len < TWO_32
    modifies buf
    ensures n == 1 + |LengthField(len, 0)| && buf[..n] == [old(buf[0])] + LengthField(len, 0)
  {
    hide Be16, Be32;
    n := 0;
    if len < 126 {
      buf[1] := len;
      n := 2;
    } else if len < 65536 {
      buf[1] := 126;
      Memcpy(buf, 2, Be16(len));
      n := 4;
    } else {
      buf[1] := 127;
      Memcpy(buf, 2, Be32(len / TWO_32));
      Memcpy(buf, 6, Be32(len % TWO_32));
      n := 10;
    }
  }

  /** op | 128 */
  function WithFin(op: byte): (flags: byte)
    ensures flags >= 128 && flags % 128 == op % 128
  {
    if op >= 128 then op else op + 128
  }

  function MaskingFor(isClient: bool, key: Key): (m: Masking) {
    if isClient then Masked(key) else Plain
  }

  function FrameHeader(len: nat, op: byte, isClient: bool, key: Key): (h: seq<byte>)
    ensures 2 <= |h| <= 14
    ensures isClient ==> |h| >= 6 && h[|h| - 4..] == key
  {
    Header(WithFin(op), len, MaskingFor(isClient, key))
  }

  function FrameWire(payload: seq<byte>, op: byte, isClient: bool, key: Key): (w: seq<byte>) {
    Wire(WithFin(op), payload, MaskingFor(isClient, key))
  }

  /** mg_ws_mask: the last `len` bytes of the send buffer are masked with the four before them. */
  method WsMask(send: Buffer, len: nat, isClient: bool)
    requires send.Valid() && (isClient ==> len + 4 <= send.len)
    modifies send.buf
    ensures send.Valid()
    ensures var s := old(send.Contents());
            send.Contents() ==
              if isClient then Splice(s, |s| - len, Mask(s[|s| - len..], s[|s| - len - 4..|s| - len])) else s
  {
    hide Mask;
    if isClient {
      ghost var s := send.Contents();
      var p := send.len - len;
      assert send.buf[p..p + len] == s[p..] && send.buf[p - 4..p] == s[p - 4..p];
      XorRange(send.buf, p, len);
      assert send.buf[..send.len] == Splice(s, p, Mask(s[p..], s[p - 4..p]));
    }
  }

  /** Masking the payload behind a header completes the frame. */
  lemma MaskedBehindHeader(before: seq<byte>, h: seq<byte>, payload: seq<byte>, key: Key)
    requires |h| >= 4 && h[|h| - 4..] == key
    ensures var s := before + h + payload;
            var p := |s| - |payload|;
            s[p..] == payload && s[p - 4..p] == key
            && Splice(s, p, Mask(s[p..], s[p - 4..p])) == before + (h + Mask(payload, key))
  {
    hide Mask;
    var s, p := before + h + payload, |before| + |h|;
    assert s[p..] == payload && s[p - 4..p] == key;
  }

  /** mg_ws_send, with memory to spare: one frame is appended to the send buffer. */
  method WsSend(send: Buffer, payload: seq<byte>, op: byte, isClient: bool, key: Key) returns (n: nat)
    requires send.Valid() && |payload| < TWO_32
    modifies send, send.buf
    ensures send.Valid() && (send.buf == old(send.buf) || fresh(send.buf))
    ensures send.Contents() == old(send.Contents()) + FrameWire(payload, op, isClient, key)
    ensures n == |FrameWire(payload, op, isClient, key)|
  {
    hide Mask, Header, FrameHeader, FrameWire, Splice, Buffer.Contents;
    ghost var before := send.Contents();
    var headerLen, header := MkHdr(|payload|, op, isClient, key);
    MgSend(send, header[..headerLen]);
    MgSend(send, payload);
    FrameCompleted(before, payload, op, isClient, key);
    WsMask(send, |payload|, isClient);
    n := headerLen + |payload|;
  }

  lemma FrameCompleted(before: seq<byte>, payload: seq<byte>, op: byte, isClient: bool, key: Key)
    requires |payload| < TWO_32
    ensures var s := before + FrameHeader(|payload|, op, isClient, key) + payload;
            var p := |s| - |payload|;
            before + FrameWire(payload, op, isClient, key) ==
              if isClient then Splice(s, p, Mask(s[p..], s[p - 4..p])) else s
    ensures |FrameWire(payload, op, isClient, key)| == |FrameHeader(|payload|, op, isClient, key)| + |payload|
  {
    hide Mask, Header;
    var h := FrameHeader(|payload|, op, isClient, key);
    assert FrameWire(payload, op, isClient, key) == h + Apply(MaskingFor(isClient, key), payload);
    if isClient {
      MaskedBehindHeader(before, h, payload, key);
    } else {
      assert before + h + payload == before + (h + payload);
    }
  }

  /** mg_ws_wrap, with memory to spare: the last `len` bytes of the send buffer become a frame. */
  method WsWrap(send: Buffer, len: nat, op: byte, isClient: bool, key: Key) returns (n: nat)
    requires send.Valid() && len <= send.len && len < TWO_32
    modifies send, send.buf
    ensures send.Valid() && (send.buf == old(send.buf) || fresh(send.buf))
    ensures var s, k := old(send.Contents()), old(send.len) - len;
            send.Contents() == s[..k] + FrameWire(s[k..], op, isClient, key)
    ensures n == send.len
  {
    hide Mask, Header, FrameHeader, FrameWire, Splice, Buffer.Contents, Buffer.Valid;
    ghost var s, k := send.Contents(), send.len - len;
    var headerLen, header := MkHdr(len, op, isClient, key);
    MakeRoom(send, len, header[..headerLen]);
    FrameCompleted(s[..k], s[k..], op, isClient, key);
    WsMask(send, len, isClient);
    n := send.len;
  }

  method MakeRoom(send: Buffer, len: nat, header: seq<byte>)
    requires send.Valid() && len <= send.len
    modifies send, send.buf
    ensures send.Valid() && (send.buf == old(send.buf) || fresh(send.buf))
    ensures var s, k := old(send.Contents()), old(send.len) - len;
            send.Contents() == s[..k] + header + s[k..]
  {
    ghost var s, k := send.Contents(), send.len - len;
    var _ := send.AddRoom(|header|, IO_SIZE, true);
    ghost var t := send.Contents();
    assert t[0..k] == s[..k] && t[k..k + len] == s[k..] by {
      assert forall i :: 0 <= i < |s| ==> t[i] == t[..|s|][i];
    }
    Prepend(send, len, header);
  }

  /** memmove the last-but-header `len` bytes to the end, and the header in front of them. */
  method Prepend(send: Buffer, len: nat, header: seq<byte>)
    requires send.Valid() && len + |header| <= send.len
    modifies send.buf
    ensures send.Valid()
    ensures var s, k := old(send.Contents()), old(send.len) - len - |header|;
            send.Contents() == s[0..k] + header + s[k..k + len]
  {
    hide Splice;
    ghost var m, n := send.buf[..], send.len;
    var p := send.len - len;
    var k := p - |header|;
    MemmoveSeq(send.buf, p, k, len);
    MemcpySeq(send.buf, k, header);
    ghost var x := m[k..k + len];
    SpliceInPrefix(m, n, p, x);
    SpliceInPrefix(Splice(m, p, x), n, k, header);
    assert m[..n][k..k + len] == x;
    MovedBehind(m[..n], k, header, len);
    assert send.buf[..n] == send.buf[..][..n];
  }

  lemma MovedBehind(s: seq<byte>, k: nat, header: seq<byte>, len: nat)
    requires |s| == k + |header| + len
    ensures Splice(Splice(s, k + |header|, s[k..k + len]), k, header) == s[0..k] + header + s[k..k + len]
  {
  }

  /**
   * Sections 5.1 and 5.2: a frame is sent final with its opcode, clients and only clients mask, and
   * the length stands in the shortest of the three forms, big-endian.
   */
  lemma SentHeader(payload: seq<byte>, op: byte, isClient: bool, key: Key)
    requires |payload| < TWO_32 && op < 16
    ensures var w, n := FrameWire(payload, op, isClient, key), |payload|;
            && |w| == n + (if n < 126 then 2 else if n < 65536 then 4 else 10) + (if isClient then 4 else 0)
            && w[0] == 128 + op && (w[1] >= 128 <==> isClient)
            && w[1] % 128 == (if n < 126 then n else if n < 65536 then 126 else 127)
            && (126 <= n < 65536 ==> Num16(w, 2) == n)
            && (n >= 65536 ==> w[2] == w[3] == w[4] == w[5] == 0 && Num32(w, 6) == n)
  {
    hide Mask, LengthField, Num16, Num32;
    var bit: byte, n, m := if isClient then 128 else 0, |payload|, MaskingFor(isClient, key);
    var f, behind := LengthField(n, bit), KeyField(m) + Apply(m, payload);
    var w := [WithFin(op)] + f + behind;
    assert FrameWire(payload, op, isClient, key) == w;
    assert forall k :: 0 <= k < |f| ==> w[k + 1] == f[k];
    ShortForm(n, bit);
    if 126 <= n < 65536 { SameNum16(f, 1, w, 2); }
    if n >= 65536 {
      LongForm(n, bit);
      HighWordIsZero(n, bit);
      SameNum32(f, 5, w, 6);
    }
  }

  lemma HighWordIsZero(len: nat, bit: byte)
    requires 65536 <= len < TWO_32 && (bit == 0 || bit == 128)
    ensures var f := LengthField(len, bit); f[1] == f[2] == f[3] == f[4] == 0
  {
    assert len / TWO_32 == 0;
  }

  /** Whatever a peer of either role sends is read back exactly, up to the limit on payloads. */
  lemma SentFramesAreRead(payload: seq<byte>, op: byte, isClient: bool, key: Key, rest: seq<byte>)
    requires |payload| < TWO_32
    ensures Process(FrameWire(payload, op, isClient, key) + rest) ==
              if |payload| <= MAX_DATA_LEN
              then Frame(WithFin(op), |FrameHeader(|payload|, op, isClient, key)|, payload)
              else Incomplete
  {
    RoundTrip(WithFin(op), payload, MaskingFor(isClient, key), rest);
  }
}
