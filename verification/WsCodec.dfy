// The WebSocket frame codec of components/mongoose/src/ws.c: what a frame is on
// the wire (sections 5.2 and 5.3 of RFC 6455), ws_process as a function of the
// received bytes, and the round trip between the two.
module WsCodec {
  import opened Bytes

  const MAX_DATA_LEN: nat := 1024 * 1024 * 1024
  type Key = k: seq<byte> | |k| == 4 witness [0, 0, 0, 0]

  /** Unmasked, or masked with a key. */
  datatype Masking = Plain | Masked(key: Key)

  /** Octet i is combined with octet i mod 4 of the key (section 5.3). */
  function Mask(s: seq<byte>, key: Key): (r: seq<byte>)
    ensures |r| == |s|
  {
    if s == [] then []
    else Mask(s[..|s| - 1], key) + [Xor(s[|s| - 1], key[(|s| - 1) % 4])]
  }

  lemma {:induction false} MaskAt(s: seq<byte>, key: Key, i: nat)
    requires i < |s|
    ensures Mask(s, key)[i] == Xor(s[i], key[i % 4])
  {
    if i < |s| - 1 {
      MaskAt(s[..|s| - 1], key, i);
    }
  }

  lemma {:induction false} MaskTwice(s: seq<byte>, key: Key)
    ensures Mask(Mask(s, key), key) == s
  {
    if s != [] {
      var t := s[..|s| - 1];
      MaskTwice(t, key);
      XorTwice(s[|s| - 1], key[(|s| - 1) % 4]);
      assert Mask(s, key)[..|s| - 1] == Mask(t, key);
    }
  }

  function Apply(m: Masking, s: seq<byte>): (r: seq<byte>)
    ensures |r| == |s|
  {
    match m case Plain => s case Masked(key) => Mask(s, key)
  }

  // -------------------------------------------------------------- the encoder

  /** The length in its shortest form, with the mask bit. */
  function LengthField(len: nat, bit: byte): (f: seq<byte>)
    requires bit == 0 || bit == 128
    ensures |f| == if len < 126 then 1 else if len < 65536 then 3 else 9
  {
    if len < 126 then [bit + len]
    else if len < 65536 then [bit + 126] + Be16(len)
    else [bit + 127] + Be32(len / TWO_32) + Be32(len % TWO_32)
  }

  function KeyField(m: Masking): (f: seq<byte>) {
    match m case Plain => [] case Masked(key) => key
  }

  /** A frame header: flags, the shortest length form, and the masking key if there is one. */
  function Header(flags: byte, len: nat, m: Masking): (h: seq<byte>)
    ensures 2 <= |h| <= 14
  {
    [flags] + LengthField(len, if m.Masked? then 128 else 0) + KeyField(m)
  }

  /** A whole frame on the wire. */
  function Wire(flags: byte, payload: seq<byte>, m: Masking): (w: seq<byte>)
    ensures |w| >= 2
  {
    Header(flags, |payload|, m) + Apply(m, payload)
  }

  // -------------------------------------------------------------- the decoder

  /** What ws_process finds in a buffer: nothing complete, or a frame with an unmasked payload. */
  datatype Parsed = Incomplete | Frame(flags: byte, hdr: nat, payload: seq<byte>)
  {
    function Total(): nat { if Incomplete? then 0 else hdr + |payload| }
  }

  function MaskLen(buf: seq<byte>): (m: nat)
    requires |buf| >= 2
    ensures m == 0 || m == 4
  {
    if buf[1] >= 128 then 4 else 0
  }

  /**
   * Header and payload length as far as the buffer tells; (0, 0) while the header
   * is short. size_t has 32 bits on the target, so of a 64-bit length only the low
   * word survives the shift.
   */
  function Lengths(buf: seq<byte>): (l: (nat, nat))
    ensures l.0 == 0 ==> l.1 == 0
    ensures l.0 != 0 ==> |buf| >= 2 && 2 + MaskLen(buf) <= l.0 <= 10 + MaskLen(buf)
  {
    if |buf| < 2 then (0, 0)
    else
      var n, m := buf[1] % 128, MaskLen(buf);
      if n < 126 && |buf| >= m then (2 + m, n)
      else if n == 126 && |buf| >= 4 + m then (4 + m, Num16(buf, 2))
      else if |buf| >= 10 + m then
        (10 + m, Num32(buf, 6))
      else (0, 0)
  }

  /** ws_process */
  function Process(buf: seq<byte>): (p: Parsed)
    ensures p.Frame? ==> 2 <= p.hdr && p.Total() <= |buf| && p.flags == buf[0]
  {
    var (h, d) := Lengths(buf);
    if h == 0 || d > MAX_DATA_LEN || h + d > |buf| then Incomplete
    else Frame(buf[0], h, Apply(MaskingOf(buf, h), buf[h..h + d]))
  }

  /** The masking key is the last four bytes of a masked header. */
  function MaskingOf(buf: seq<byte>, h: nat): (m: Masking)
    requires 2 <= |buf| && 2 + MaskLen(buf) <= h <= |buf|
  {
    if MaskLen(buf) > 0 then Masked(buf[h - 4..h]) else Plain
  }

  // ------------------------------------------------------- the two together

  lemma LengthsOfMore(buf: seq<byte>, more: seq<byte>)
    requires Lengths(buf).0 != 0
    ensures Lengths(buf + more) == Lengths(buf) && MaskLen(buf + more) == MaskLen(buf)
  {
    var all := buf + more;
    assert forall i :: 0 <= i < |buf| ==> all[i] == buf[i];
  }

  /** A frame that is complete stays the same frame when more bytes arrive. */
  lemma MoreBytesChangeNothing(buf: seq<byte>, more: seq<byte>)
    requires Process(buf).Frame?
    ensures Process(buf + more) == Process(buf)
  {
    hide Mask;
    var (h, d) := Lengths(buf);
    var all := buf + more;
    assert all[0] == buf[0];
    LengthsOfMore(buf, more);
    hide Lengths;
    SliceOfPrefix(buf, more, h, h + d);
    if h >= 4 {
      SliceOfPrefix(buf, more, h - 4, h);
    }
  }

  /** A prefix tells the same lengths, or none yet. */
  lemma PrefixLengths(buf: seq<byte>, k: nat)
    requires k <= |buf|
    ensures Lengths(buf[..k]).0 == 0 || Lengths(buf[..k]) == Lengths(buf)
  {
  }

  /** Short of its last byte, a frame is not there at all. */
  lemma StrictPrefixesAreIncomplete(buf: seq<byte>, k: nat)
    requires Process(buf).Frame? && k < Process(buf).Total()
    ensures Process(buf[..k]) == Incomplete
  {
    PrefixLengths(buf, k);
  }

  lemma HeaderLengths(flags: byte, len: nat, m: Masking, rest: seq<byte>)
    requires len < TWO_32 && |rest| >= len
    ensures Lengths(Header(flags, len, m) + rest) == (|Header(flags, len, m)|, len)
    ensures MaskLen(Header(flags, len, m) + rest) == if m.Masked? then 4 else 0
  {
    var bit: byte := if m.Masked? then 128 else 0;
    var f, buf := LengthField(len, bit), Header(flags, len, m) + rest;
    FieldBehindFlags(flags, f, KeyField(m) + rest);
    assert buf == [flags] + (f + (KeyField(m) + rest));
    ShortForm(len, bit);
    hide Lengths, MaskLen, LengthField, Header, Num16, Num32;
    if len < 126 {
      LengthsShort(buf, bit, len);
    } else if len < 65536 {
      assert buf[2] == f[1] && buf[3] == f[2];
      SameNum16(buf, 2, f, 1);
      LengthsMedium(buf, bit);
    } else {
      LongForm(len, bit);
      assert buf[6] == f[5] && buf[7] == f[6] && buf[8] == f[7] && buf[9] == f[8];
      SameNum32(buf, 6, f, 5);
      LengthsLong(buf, bit);
    }
  }

  lemma FieldBehindFlags(flags: byte, f: seq<byte>, rest: seq<byte>)
    ensures var buf := [flags] + (f + rest);
            |buf| >= 1 + |f| && forall i :: 1 <= i < 1 + |f| ==> buf[i] == f[i - 1]
  {
  }

  lemma SameNum16(a: seq<byte>, i: nat, b: seq<byte>, j: nat)
    requires i + 2 <= |a| && j + 2 <= |b| && a[i] == b[j] && a[i + 1] == b[j + 1]
    ensures Num16(a, i) == Num16(b, j)
  {
  }

  lemma SameNum32(a: seq<byte>, i: nat, b: seq<byte>, j: nat)
    requires i + 4 <= |a| && j + 4 <= |b|
    requires a[i] == b[j] && a[i + 1] == b[j + 1] && a[i + 2] == b[j + 2] && a[i + 3] == b[j + 3]
    ensures Num32(a, i) == Num32(b, j)
  {
  }

  /** The three forms of a length as they are read; `bit` is the mask bit. */
  lemma LengthsShort(buf: seq<byte>, bit: byte, len: nat)
    requires (bit == 0 || bit == 128) && |buf| >= 2 + bit / 32 && len < 126 && buf[1] == bit + len
    ensures Lengths(buf) == (2 + bit / 32, len) && MaskLen(buf) == bit / 32
  {
  }

  lemma LengthsMedium(buf: seq<byte>, bit: byte)
    requires (bit == 0 || bit == 128) && |buf| >= 4 + bit / 32 && buf[1] == bit + 126
    ensures Lengths(buf) == (4 + bit / 32, Num16(buf, 2)) && MaskLen(buf) == bit / 32
  {
    hide Num16, Num32;
  }

  lemma LengthsLong(buf: seq<byte>, bit: byte)
    requires (bit == 0 || bit == 128) && |buf| >= 10 + bit / 32 && buf[1] == bit + 127
    ensures Lengths(buf) == (10 + bit / 32, Num32(buf, 6)) && MaskLen(buf) == bit / 32
  {
    hide Num16, Num32;
  }

  lemma ShortForm(len: nat, bit: byte)
    requires len < TWO_32 && (bit == 0 || bit == 128)
    ensures LengthField(len, bit)[0] == bit + if len < 126 then len else if len < 65536 then 126 else 127
    ensures 126 <= len < 65536 ==> Num16(LengthField(len, bit), 1) == len
  {
    if 126 <= len < 65536 {
      var f, n := LengthField(len, bit), Be16(len);
      assert f[1] == n[0] && f[2] == n[1];
      Be16RoundTrip(len);
    }
  }

  lemma LongForm(len: nat, bit: byte)
    requires 65536 <= len < TWO_32 && (bit == 0 || bit == 128)
    ensures LengthField(len, bit)[0] == bit + 127 && Num32(LengthField(len, bit), 5) == len
  {
    var f, n := LengthField(len, bit), Be32(len);
    assert f[5] == n[0] && f[6] == n[1] && f[7] == n[2] && f[8] == n[3];
    Be32RoundTrip(len);
  }

  /**
   * The round trip: a frame followed by anything is read back with its exact
   * length, flags and payload, if and only if the payload is within the limit.
   */
  lemma RoundTrip(flags: byte, payload: seq<byte>, m: Masking, rest: seq<byte>)
    requires |payload| < TWO_32
    ensures |payload| <= 0x4000_0000 ==>
              Process(Wire(flags, payload, m) + rest) == Frame(flags, |Header(flags, |payload|, m)|, payload)
    ensures |payload| > 0x4000_0000 ==> Process(Wire(flags, payload, m) + rest) == Incomplete
  {
    hide Mask, LengthField, Lengths;
    var h, body := Header(flags, |payload|, m), Apply(m, payload);
    var buf := Wire(flags, payload, m) + rest;
    assert buf == h + (body + rest);
    HeaderLengths(flags, |payload|, m, body + rest);
    if |payload| <= MAX_DATA_LEN {
      assert buf[|h|..|h| + |payload|] == body;
      KeyInHeader(flags, |payload|, m, body + rest);
      if m.Masked? {
        MaskTwice(payload, m.key);
      }
    }
  }

  lemma KeyInHeader(flags: byte, len: nat, m: Masking, rest: seq<byte>)
    requires MaskLen(Header(flags, len, m) + rest) == if m.Masked? then 4 else 0
    ensures 2 + MaskLen(Header(flags, len, m) + rest) <= |Header(flags, len, m)|
    ensures MaskingOf(Header(flags, len, m) + rest, |Header(flags, len, m)|) == m
  {
    hide LengthField;
    var h := Header(flags, len, m);
    if m.Masked? {
      assert (h + rest)[|h| - 4..|h|] == m.key;
    }
  }

  /** Every strict prefix of a frame reads as nothing. */
  lemma WirePrefixIsIncomplete(flags: byte, payload: seq<byte>, m: Masking, k: nat)
    requires |payload| < TWO_32 && k < |Wire(flags, payload, m)|
    ensures Process(Wire(flags, payload, m)[..k]) == Incomplete
  {
    var w := Wire(flags, payload, m);
    HeaderLengths(flags, |payload|, m, Apply(m, payload));
    PrefixLengths(w, k);
  }
}
