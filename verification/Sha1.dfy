// components/mongoose/src/sha1.c: streaming SHA-1 over an arbitrary compression
// function, and HMAC on top of it, refine the one-shot definitions of section 5
// and 6 of FIPS 180-4 and section 2 of RFC 2104.
module Sha1 {
  import opened Bytes
  import opened IoBuf

  type State = s: seq<uint32> | |s| == 5 witness [0, 0, 0, 0, 0]

  /** mg_sha1_transform: any function of a state and a 64-byte block. */
  type Transform = (State, seq<byte>) -> State

  const IV: State := [0x67452301, 0xEFCDAB89, 0x98BADCFE, 0x10325476, 0xC3D2E1F0]

  // ------------------------------------------------------------ specification

  /** The transform folded over the complete blocks of `data`. */
  function Fold(f: Transform, s: State, data: seq<byte>): (s': State)
    decreases |data|
  {
    if |data| < 64 then s else Fold(f, f(s, data[..64]), data[64..])
  }

  function Zeros(n: nat): (z: seq<byte>)
    ensures |z| == n && forall i :: 0 <= i < n ==> z[i] == 0
  {
    seq(n, i => 0)
  }

  function BytesOfWord(w: uint32): (b: seq<byte>)
    ensures |b| == 4
  {
    [ByteOfWord(w, 0), ByteOfWord(w, 1), ByteOfWord(w, 2), ByteOfWord(w, 3)]
  }

  /** (w >> ((3 - i) * 8)) & 255 */
  function ByteOfWord(w: uint32, i: nat): (b: byte)
    requires i < 4
  {
    if i == 0 then w / 0x100_0000 else if i == 1 then w / 0x1_0000 % 256 else if i == 2 then w / 256 % 256 else w % 256
  }

  /** The number of zero bytes between the marker and the length. */
  function ZeroCount(n: nat): (k: nat)
    ensures k < 64 && (n + 1 + k) % 64 == 56
  {
    (55 - n) % 64
  }

  /** Section 5.1.1: a one bit, zeros, and the bit length in 64 bits. */
  function Padding(n: nat): (p: seq<byte>) {
    [0x80] + Zeros(ZeroCount(n)) + BytesOfWord(8 * n % 0x1_0000_0000_0000_0000 / 0x1_0000_0000)
    + BytesOfWord(8 * n % 0x1_0000_0000_0000_0000 % 0x1_0000_0000)
  }

  function Digest(s: State): (d: seq<byte>)
    ensures |d| == 20
  {
    BytesOfWord(s[0]) + BytesOfWord(s[1]) + BytesOfWord(s[2]) + BytesOfWord(s[3]) + BytesOfWord(s[4])
  }

  /** One-shot hashing. */
  function Hash(f: Transform, msg: seq<byte>): (d: seq<byte>)
    ensures |d| == 20
  {
    Digest(Fold(f, IV, msg + Padding(|msg|)))
  }

  /** The octets of a word, the most significant first. */
  lemma WordIsBigEndian(w: uint32)
    ensures Num32(BytesOfWord(w), 0) == w
  {
    var b0, b1, b2, b3 := w / 0x100_0000, w / 0x1_0000 % 256, w / 256 % 256, w % 256;
    assert w / 0x1_0000 == 256 * b0 + b1;
    assert w / 256 == 0x1_0000 * b0 + 256 * b1 + b2;
    var b := BytesOfWord(w);
    assert b[0] == b0 && b[1] == b1 && b[2] == b2 && b[3] == b3;
  }

  lemma Num32Shifts(a: seq<byte>, b: seq<byte>, c: seq<byte>)
    requires |b| == 4
    ensures Num32(a + b + c, |a|) == Num32(b, 0)
  {
    var s := a + b + c;
    assert s[|a|] == b[0] && s[|a| + 1] == b[1] && s[|a| + 2] == b[2] && s[|a| + 3] == b[3];
  }

  /** Section 6.1.2: the digest is the five words of the state, big-endian. */
  lemma DigestIsBigEndian(s: State, i: nat)
    requires i < 5
    ensures Num32(Digest(s), 4 * i) == s[i]
  {
    hide BytesOfWord, Num32;
    var a, b, c, d, e := BytesOfWord(s[0]), BytesOfWord(s[1]), BytesOfWord(s[2]), BytesOfWord(s[3]), BytesOfWord(s[4]);
    WordIsBigEndian(s[i]);
    if i == 0 {
      assert Digest(s) == [] + a + (b + c + d + e);
      Num32Shifts([], a, b + c + d + e);
    } else if i == 1 {
      assert Digest(s) == a + b + (c + d + e);
      Num32Shifts(a, b, c + d + e);
    } else if i == 2 {
      assert Digest(s) == (a + b) + c + (d + e);
      Num32Shifts(a + b, c, d + e);
    } else if i == 3 {
      Num32Shifts(a + b + c, d, e);
    } else {
      assert Digest(s) == (a + b + c + d) + e + [];
      Num32Shifts(a + b + c + d, e, []);
    }
  }

  /** Section 5.3.1: the octets of the initial state, the least significant of each word first, run up, down and up. */
  lemma InitialState(k: nat)
    requires k < 20
    ensures Digest(IV)[4 * (k / 4) + 3 - k % 4] ==
              if k < 8 then 0x01 + 0x22 * k else if k < 16 then 0xFE - 0x22 * (k - 8) else 0xF0 - 0x0F * (k - 16)
  {
    hide ByteOfWord, Digest;
    DigestAt(IV, 4 * (k / 4) + 3 - k % 4);
    InitialWord(k / 4);
  }

  /** The octets of one word of the initial state, least significant first. */
  lemma InitialWord(i: nat)
    requires i < 5
    ensures var w := IV[i];
            var first, step := if i < 2 then 0x01 + 0x88 * i else if i < 4 then 0xFE - 0x88 * (i - 2) else 0xF0,
                               if i < 2 then 0x22 else if i < 4 then -0x22 else -0x0F;
            && ByteOfWord(w, 3) == first && ByteOfWord(w, 2) == first + step
            && ByteOfWord(w, 1) == first + 2 * step && ByteOfWord(w, 0) == first + 3 * step
  {
    hide ByteOfWord;
    match i
    case 0 => OctetsOfWord(IV[0], 0x67, 0x45, 0x23, 0x01);
    case 1 => OctetsOfWord(IV[1], 0xEF, 0xCD, 0xAB, 0x89);
    case 2 => OctetsOfWord(IV[2], 0x98, 0xBA, 0xDC, 0xFE);
    case 3 => OctetsOfWord(IV[3], 0x10, 0x32, 0x54, 0x76);
    case _ => OctetsOfWord(IV[4], 0xC3, 0xD2, 0xE1, 0xF0);
  }

  lemma OctetsOfWord(w: uint32, a: byte, b: byte, c: byte, d: byte)
    requires w == 0x100_0000 * (a as int) + 0x1_0000 * (b as int) + 0x100 * (c as int) + d
    ensures ByteOfWord(w, 0) == a && ByteOfWord(w, 1) == b && ByteOfWord(w, 2) == c && ByteOfWord(w, 3) == d
  {
    assert w / 0x1_0000 == 0x100 * (a as int) + b;
    assert w / 0x100 == 0x1_0000 * (a as int) + 0x100 * (b as int) + c;
  }

  /** Section 5.1.1, octet by octet: a one bit, zeros, and at the end the bit length as one big-endian number. */
  lemma PaddingEndsInBitLength(n: nat)
    ensures var p, l := Padding(n), |Padding(n)|;
            && l >= 9 && p[0] == 0x80 && (forall k :: 0 < k < l - 8 ==> p[k] == 0)
            && 0x1_0000_0000 * Num32(p, l - 8) + Num32(p, l - 4) == 8 * n % 0x1_0000_0000_0000_0000
  {
    hide BytesOfWord, Num32, ZeroCount;
    var bits := 8 * n % 0x1_0000_0000_0000_0000;
    var hi, lo := bits / 0x1_0000_0000, bits % 0x1_0000_0000;
    var front, a, b := [0x80] + Zeros(ZeroCount(n)), BytesOfWord(hi), BytesOfWord(lo);
    WordIsBigEndian(hi);
    WordIsBigEndian(lo);
    Num32Shifts(front, a, b);
    assert front + a + b == (front + a) + b + [];
    Num32Shifts(front + a, b, []);
  }

  /** The padded message is whole blocks, and no shorter run of zeros would make it so. */
  lemma PaddingIsMinimal(n: nat, k: nat)
    ensures (n + |Padding(n)|) % 64 == 0
    ensures (n + 1 + k + 8) % 64 == 0 ==> k >= ZeroCount(n)
  {
    hide BytesOfWord, ZeroCount;
    LeastFill(n, k, ZeroCount(n));
  }

  lemma LeastFill(n: nat, k: nat, z: nat)
    requires z < 64 && (n + 1 + z) % 64 == 56
    ensures (n + 1 + z + 8) % 64 == 0
    ensures (n + 1 + k + 8) % 64 == 0 ==> k >= z
  {
    var a, b := (n + 9 + k) / 64, (n + 9 + z) / 64;
    assert n + 9 + z == 64 * b;
  }

  lemma {:induction false} FoldThen(f: Transform, s: State, a: seq<byte>, b: seq<byte>)
    requires |a| % 64 == 0
    ensures Fold(f, s, a + b) == Fold(f, Fold(f, s, a), b)
    decreases |a|
  {
    if a == [] {
      assert a + b == b;
    } else {
      assert (a + b)[..64] == a[..64];
      assert (a + b)[64..] == a[64..] + b;
      FoldThen(f, f(s, a[..64]), a[64..], b);
    }
  }

  /** The bytes of an incomplete last block. */
  function Tail(msg: seq<byte>): (t: seq<byte>)
    ensures |t| == |msg| % 64
  {
    msg[|msg| - |msg| % 64..]
  }

  /** Hashing on from a message needs its fold and its tail only. */
  lemma FoldFromTail(f: Transform, s: State, msg: seq<byte>, more: seq<byte>)
    ensures Fold(f, s, msg + more) == Fold(f, Fold(f, s, msg), Tail(msg) + more)
  {
    var n := |msg| - |msg| % 64;
    var full := msg[..n];
    FoldThen(f, s, full, Tail(msg) + more);
    FoldThen(f, s, full, Tail(msg));
    assert msg + more == full + (Tail(msg) + more);
    assert msg == full + Tail(msg);
  }

  lemma BlocksVanish(blocks: nat, n: nat)
    ensures (64 * blocks + n) % 64 == n % 64
  {
  }

  lemma TailThen(msg: seq<byte>, more: seq<byte>)
    ensures Tail(msg + more) == Tail(Tail(msg) + more)
  {
    var blocks := |msg| / 64;
    var n := 64 * blocks;
    var all, rest := msg + more, msg[n..] + more;
    assert Tail(msg) == msg[n..];
    assert all == msg[..n] + rest;
    BlocksVanish(blocks, |rest|);
    var k := |rest| - |rest| % 64;
    assert all[n + k..] == rest[k..];
  }

  /** A state, count and block buffer after `fed` has been hashed. */
  ghost predicate Absorbed(f: Transform, state: State, count0: uint32, count1: uint32, buffer: seq<byte>,
      fed: seq<byte>) {
    && |buffer| == 64
    && state == Fold(f, IV, fed)
    && buffer[..|fed| % 64] == Tail(fed)
    && count1 * 0x1_0000_0000 + count0 == 8 * |fed| % 0x1_0000_0000_0000_0000
  }

  lemma NothingAbsorbed(f: Transform, buffer: seq<byte>)
    requires |buffer| == 64
    ensures Absorbed(f, IV, 0, 0, buffer, [])
  {
    hide Fold, Tail;
    NothingFolded(f);
    NoTail();
  }

  lemma NothingFolded(f: Transform)
    ensures Fold(f, IV, []) == IV
  {
  }

  lemma NoTail()
    ensures Tail([]) == []
  {
  }

  // ---------------------------------------------------------------- the context

  class Context {
    const f: Transform
    var state: State
    var count0: uint32
    var count1: uint32
    const buffer: array<byte>
    ghost var fed: seq<byte>

    /** What the context stands for after `fed` has been hashed. */
    ghost predicate Valid()
      reads this, buffer
    {
      buffer.Length == 64 && Absorbed(f, state, count0, count1, buffer[..], fed)
    }

    constructor (f: Transform)
      ensures this.f == f && buffer.Length == 64 && fresh(buffer)
    {
      this.f := f;
      buffer := new byte[64](i => 0);
      state, count0, count1, fed := [0, 0, 0, 0, 0], 0, 0, [];
    }

    /** mg_sha1_init */
    method Init()
      requires buffer.Length == 64
      modifies this
      ensures Valid() && fed == []
    {
      hide Fold, Tail, Absorbed;
      state := IV;
      count0, count1 := 0, 0;
      fed := [];
      NothingAbsorbed(f, buffer[..]);
    }

    /** The two-word bit count. */
    method Count(len: nat)
      modifies `count0, `count1
      ensures count1 * 0x1_0000_0000 + count0 ==
              (old(count1) * 0x1_0000_0000 + old(count0) + 8 * len) % 0x1_0000_0000_0000_0000
    {
      hide Fold, Tail;
      ghost var c0, c1 := count0, count1;
      var j := count0;
      count0 := (count0 + 8 * len % 0x1_0000_0000) % 0x1_0000_0000;
      if count0 < j {
        count1 := (count1 + 1) % 0x1_0000_0000;
      }
      count1 := (count1 + len / 0x2000_0000 % 0x1_0000_0000) % 0x1_0000_0000;
      LengthInWords(len);
      CarryInto(c0, c1, 8 * len % 0x1_0000_0000, len / 0x2000_0000);
    }

    /** mg_sha1_update */
    method Update(data: seq<byte>)
      requires Valid()
      modifies this, buffer
      ensures Valid() && fed == old(fed) + data
    {
      hide Fold, Tail;
      ghost var tail := Tail(fed);
      BitsToBytes(count0, count1, |fed|);
      CountsAdd(count1 * 0x1_0000_0000 + count0, |fed|, |data|);
      FoldFromTail(f, IV, fed, data);
      TailThen(fed, data);
      var j := count0 / 8 % 64;
      assert buffer[..j] == buffer[..][..j] == tail;
      Count(|data|);
      Absorb(data, j, tail);
      fed := fed + data;
      assert buffer[..][..|fed| % 64] == buffer[..|fed| % 64];
    }

    /** The buffering half of mg_sha1_update: `j` bytes are waiting in the buffer. */
    method Absorb(data: seq<byte>, j: nat, ghost tail: seq<byte>)
      requires buffer.Length == 64 && j < 64 && buffer[..j] == tail
      modifies `state, buffer
      ensures state == Fold(f, old(state), tail + data)
      ensures buffer[..(j + |data|) % 64] == Tail(tail + data)
    {
      hide Fold, Tail;
      if j + |data| > 63 {
        AbsorbBlocks(data, j, tail);
      } else {
        ShortFold(f, state, tail + data);
        FillBuffer(j, tail, data);
      }
    }

    /** At least one block is complete: the one in the buffer, then those in the data. */
    method AbsorbBlocks(data: seq<byte>, j: nat, ghost tail: seq<byte>)
      requires buffer.Length == 64 && j < 64 <= j + |data| && buffer[..j] == tail
      modifies `state, buffer
      ensures state == Fold(f, old(state), tail + data)
      ensures buffer[..(j + |data|) % 64] == Tail(tail + data)
    {
      hide Fold, Tail;
      var i := 64 - j;
      FillBuffer(j, tail, data[..i]);
      FirstBlock(f, state, tail, data, i);
      state := f(state, buffer[..]);
      i := HashBlocks(data, i, j);
      ShortFold(f, state, data[i..]);
      RestLength(j, |data|, i);
      FillBuffer(0, [], data[i..]);
    }

    /** memcpy behind what is waiting in the buffer. */
    method FillBuffer(j: nat, ghost tail: seq<byte>, data: seq<byte>)
      requires buffer.Length == 64 && j + |data| <= 64 && buffer[..j] == tail
      modifies buffer
      ensures buffer[..j + |data|] == tail + data
      ensures j + |data| == 64 ==> buffer[..] == tail + data
    {
      Memcpy(buffer, j, data);
    }

    static lemma RestLength(j: nat, len: nat, i: nat)
      requires i <= len < i + 64 && (j + i) % 64 == 0
      ensures (j + len) % 64 == len - i
    {
      BlocksVanish((j + i) / 64, len - i);
    }

    /** The blocks that are hashed where they lie in the data, from `i0` on. */
    method HashBlocks(data: seq<byte>, i0: nat, ghost j: nat) returns (i: nat)
      requires i0 <= |data| && (j + i0) % 64 == 0
      modifies `state
      ensures i0 <= i <= |data| < i + 64 && (j + i) % 64 == 0
      ensures Fold(f, state, data[i..]) == Fold(f, old(state), data[i0..])
      ensures Tail(data[i..]) == Tail(data[i0..])
    {
      hide Fold, Tail;
      i := i0;
      while i + 63 < |data|
        invariant i0 <= i <= |data| && (j + i) % 64 == 0
        invariant Fold(f, state, data[i..]) == Fold(f, old(state), data[i0..])
        invariant Tail(data[i..]) == Tail(data[i0..])
      {
        NextBlock(f, state, data, i);
        state := f(state, data[i..i + 64]);
        i := i + 64;
      }
    }

    /** mg_sha1_final: the digest of everything fed; the context is wiped. */
    method Final() returns (digest: seq<byte>)
      requires Valid()
      modifies this, buffer
      ensures digest == Hash(f, old(fed))
      ensures state == [0, 0, 0, 0, 0] && count0 == count1 == 0 && forall i :: 0 <= i < buffer.Length ==> buffer[i] == 0
    {
      hide Fold, Tail, ByteOfWord, ZeroCount;
      ghost var msg := fed;
      WordsOf(count0, count1, 8 * |msg| % 0x1_0000_0000_0000_0000);
      var finalcount := BigEndianCount();
      Update([0x80]);
      PadWithZeros(msg);
      Update(finalcount);
      assert msg + Padding(|msg|) == fed;
      digest := StateBytes();
      state, count0, count1 := [0, 0, 0, 0, 0], 0, 0;
      Zeromem(buffer, 0, 64);
    }

    static lemma WordsOf(c0: uint32, c1: uint32, c: nat)
      requires c1 * 0x1_0000_0000 + c0 == c
      ensures c / 0x1_0000_0000 == c1 && c % 0x1_0000_0000 == c0
    {
    }

    method BigEndianCount() returns (finalcount: seq<byte>)
      ensures finalcount == BytesOfWord(count1) + BytesOfWord(count0)
    {
      hide ByteOfWord;
      finalcount := [];
      var i := 0;
      while i < 8
        invariant 0 <= i <= 8
        invariant finalcount == (BytesOfWord(count1) + BytesOfWord(count0))[..i]
      {
        finalcount := finalcount + [ByteOfWord(if i >= 4 then count0 else count1, i % 4)];
        i := i + 1;
      }
    }

    method StateBytes() returns (digest: seq<byte>)
      ensures digest == Digest(state)
    {
      hide ByteOfWord;
      digest := [];
      var i := 0;
      while i < 20
        invariant 0 <= i <= 20
        invariant digest == Digest(state)[..i]
      {
        DigestAt(state, i);
        digest := digest + [ByteOfWord(state[i / 4], i % 4)];
        i := i + 1;
      }
    }

    /** The padding loop: zeros until eight bytes short of a block. */
    method PadWithZeros(ghost msg: seq<byte>)
      requires Valid() && fed == msg + [0x80]
      modifies this, buffer
      ensures Valid() && fed == msg + [0x80] + Zeros(ZeroCount(|msg|))
    {
      hide Fold, Tail, Absorbed, ZeroCount, Zeros;
      ghost var t := 0;
      BitCount();
      ZerosStep(msg + [0x80], 0);
      while count0 / 8 % 64 != 56
        invariant Valid() && fed == msg + [0x80] + Zeros(t) && t <= ZeroCount(|msg|)
        invariant count0 / 8 % 64 == |fed| % 64
        decreases ZeroCount(|msg|) - t
      {
        NotYetFilled(|msg|, t);
        AddZero(msg + [0x80], t);
        t := t + 1;
      }
      LeastFill(|msg|, t, ZeroCount(|msg|));
    }

    /** One turn of that loop. */
    method AddZero(ghost front: seq<byte>, ghost t: nat)
      requires Valid() && fed == front + Zeros(t)
      modifies this, buffer
      ensures Valid() && fed == front + Zeros(t + 1) && count0 / 8 % 64 == |fed| % 64
    {
      hide Valid, Zeros;
      ZerosStep(front, t);
      Update([0]);
      BitCount();
    }

    static lemma ZerosStep(a: seq<byte>, t: nat)
      ensures a + Zeros(0) == a
      ensures (a + Zeros(t)) + [0] == a + Zeros(t + 1)
    {
      assert Zeros(t) + [0] == Zeros(t + 1);
      assert (a + Zeros(t)) + [0] == a + (Zeros(t) + [0]);
    }

    static lemma NotYetFilled(n: nat, t: nat)
      requires (n + 1 + t) % 64 != 56 && t <= ZeroCount(n)
      ensures t < ZeroCount(n)
    {
    }

    lemma BitCount()
      requires Valid()
      ensures count0 / 8 % 64 == |fed| % 64
    {
      BitsToBytes(count0, count1, |fed|);
    }

    /** The byte position in the block can be read off the low word of the bit count. */
    static lemma BitsToBytes(c0: uint32, c1: uint32, n: nat)
      requires c1 * 0x1_0000_0000 + c0 == 8 * n % 0x1_0000_0000_0000_0000
      ensures c0 / 8 % 64 == n % 64
    {
      var q := 8 * n / 0x1_0000_0000_0000_0000;
      assert 8 * n == 0x1_0000_0000_0000_0000 * q + c1 * 0x1_0000_0000 + c0;
      var high := 0x80_0000_0000_0000 * q + c1 * 0x80_0000;
      var low := n - 64 * high;
      assert c0 == 8 * low;
      BlocksVanish(high, low);
    }

    static lemma CountsAdd(c: nat, n: nat, len: nat)
      requires c == 8 * n % 0x1_0000_0000_0000_0000
      ensures (c + 8 * len) % 0x1_0000_0000_0000_0000 == 8 * (n + len) % 0x1_0000_0000_0000_0000
    {
    }

    /** The eightfold length is its low word and its high part. */
    static lemma LengthInWords(len: nat)
      ensures 8 * len == 0x1_0000_0000 * (len / 0x2000_0000) + 8 * len % 0x1_0000_0000
    {
      var q, r := len / 0x2000_0000, len % 0x2000_0000;
      assert 8 * len == 0x1_0000_0000 * q + 8 * r;
      assert 0 <= 8 * r < 0x1_0000_0000;
    }

    /** Adding a low word with a carry, and a high part, to a two-word count. */
    static lemma CarryInto(c0: uint32, c1: uint32, a: uint32, q: nat)
      ensures var d0 := (c0 + a) % 0x1_0000_0000;
              var d1 := if d0 < c0 then (c1 + 1) % 0x1_0000_0000 else c1;
              (d1 + q % 0x1_0000_0000) % 0x1_0000_0000 * 0x1_0000_0000 + d0 ==
                (c1 * 0x1_0000_0000 + c0 + 0x1_0000_0000 * q + a) % 0x1_0000_0000_0000_0000
    {
      LowSum(c0, a);
      var d0 := (c0 + a) % 0x1_0000_0000;
      var carry := if d0 < c0 then 1 else 0;
      var d1 := if d0 < c0 then (c1 + 1) % 0x1_0000_0000 else c1;
      assert d1 == (c1 + carry) % 0x1_0000_0000;
      LowWordsStay(c1 + carry + q, d0);
      ModOfSum(c1 + carry, q);
      assert (d1 + q % 0x1_0000_0000) % 0x1_0000_0000 == (c1 + carry + q) % 0x1_0000_0000;
      assert c1 * 0x1_0000_0000 + c0 + 0x1_0000_0000 * q + a == 0x1_0000_0000 * (c1 + carry + q) + d0;
    }

    /** Unsigned addition has wrapped exactly when the sum is below an operand. */
    static lemma LowSum(c0: uint32, a: uint32)
      ensures var d0 := (c0 + a) % 0x1_0000_0000;
              c0 + a == d0 + if d0 < c0 then 0x1_0000_0000 else 0
    {
    }

    static lemma ModOfSum(a: nat, b: nat)
      ensures (a % 0x1_0000_0000 + b % 0x1_0000_0000) % 0x1_0000_0000 == (a + b) % 0x1_0000_0000
    {
    }

    static lemma LowWordsStay(high: nat, low: uint32)
      ensures (0x1_0000_0000 * high + low) % 0x1_0000_0000_0000_0000 == high % 0x1_0000_0000 * 0x1_0000_0000 + low
    {
      var q, r := high / 0x1_0000_0000, high % 0x1_0000_0000;
      assert 0x1_0000_0000 * high + low == 0x1_0000_0000_0000_0000 * q + (r * 0x1_0000_0000 + low);
      assert 0 <= r * 0x1_0000_0000 + low < 0x1_0000_0000_0000_0000;
    }
  }

  lemma ShortFold(f: Transform, s: State, data: seq<byte>)
    requires |data| < 64
    ensures Fold(f, s, data) == s && Tail(data) == data
  {
  }

  /** The block completed in the buffer. */
  lemma FirstBlock(f: Transform, s: State, tail: seq<byte>, data: seq<byte>, i: nat)
    requires i <= |data| && |tail| + i == 64
    ensures Fold(f, f(s, tail + data[..i]), data[i..]) == Fold(f, s, tail + data)
    ensures Tail(data[i..]) == Tail(tail + data)
  {
    assert (tail + data)[..64] == tail + data[..i];
    assert (tail + data)[64..] == data[i..];
    assert |tail + data| % 64 == |data[i..]| % 64;
  }

  /** A block hashed where it lies in the input. */
  lemma NextBlock(f: Transform, s: State, data: seq<byte>, i: nat)
    requires i + 64 <= |data|
    ensures Fold(f, f(s, data[i..i + 64]), data[i + 64..]) == Fold(f, s, data[i..])
    ensures Tail(data[i + 64..]) == Tail(data[i..])
  {
    assert data[i..][..64] == data[i..i + 64];
    assert data[i..][64..] == data[i + 64..];
    assert |data[i..]| % 64 == |data[i + 64..]| % 64;
  }

  lemma DigestAt(s: State, i: nat)
    requires i < 20
    ensures Digest(s)[i] == ByteOfWord(s[i / 4], i % 4)
  {
  }

  // ----------------------------------------------------------------------- HMAC

  /** The key as a block: hashed if it is longer than one, then zero-filled. */
  function KeyBlock(f: Transform, key: seq<byte>): (k: seq<byte>)
    ensures |k| == 64
  {
    var k := if |key| > 64 then Hash(f, key) else key;
    k + Zeros(64 - |k|)
  }

  function XorAll(s: seq<byte>, b: byte): (r: seq<byte>)
    ensures |r| == |s| && forall i :: 0 <= i < |s| ==> r[i] == Xor(s[i], b)
  {
    seq(|s|, i requires 0 <= i < |s| => Xor(s[i], b))
  }

  /** Section 2 of RFC 2104: H(K xor opad, H(K xor ipad, text)). */
  function Hmac(f: Transform, key: seq<byte>, text: seq<byte>): (d: seq<byte>) {
    var k := KeyBlock(f, key);
    Hash(f, XorAll(k, 0x5c) + Hash(f, XorAll(k, 0x36) + text))
  }

  /** An empty key leaves the two pads as they are: 0x36 inside, 0x5c outside. */
  lemma HmacOfEmptyKey(f: Transform, text: seq<byte>)
    ensures Hmac(f, [], text) == Hash(f, seq(64, i => 0x5c) + Hash(f, seq(64, i => 0x36) + text))
  {
    hide Hash, Xor;
    XorWithNothing(0x5c);
    XorWithNothing(0x36);
    assert KeyBlock(f, []) == Zeros(64);
    assert XorAll(Zeros(64), 0x5c) == seq(64, i => 0x5c);
    assert XorAll(Zeros(64), 0x36) == seq(64, i => 0x36);
  }

  /** Both pads of a key of at most one block. */
  method Pads(key: seq<byte>) returns (buf1: array<byte>, buf2: array<byte>)
    requires |key| <= 64
    ensures fresh(buf1) && fresh(buf2)
    ensures buf1[..] == XorAll(key + Zeros(64 - |key|), 0x36)
    ensures buf2[..] == XorAll(key + Zeros(64 - |key|), 0x5c)
  {
    hide Xor;
    buf1, buf2 := new byte[64](i => 0), new byte[64](i => 0);
    Memcpy(buf1, 0, key);
    Memcpy(buf2, 0, key);
    ghost var k := key + Zeros(64 - |key|);
    var i := 0;
    while i < 64
      invariant 0 <= i <= 64 && buf1 != buf2
      invariant forall j :: 0 <= j < 64 ==> buf1[j] == if j < i then Xor(k[j], 0x36) else k[j]
      invariant forall j :: 0 <= j < 64 ==> buf2[j] == if j < i then Xor(k[j], 0x5c) else k[j]
    {
      buf1[i] := Xor(buf1[i], 0x36);
      buf2[i] := Xor(buf2[i], 0x5c);
      i := i + 1;
    }
  }

  /** Init, two updates, final. */
  method HashOfTwo(ctx: Context, a: seq<byte>, b: seq<byte>) returns (digest: seq<byte>)
    requires ctx.buffer.Length == 64
    modifies ctx, ctx.buffer
    ensures digest == Hash(ctx.f, a + b)
  {
    hide Hash, Context.Valid;
    ctx.Init();
    ctx.Update(a);
    ctx.Update(b);
    assert [] + a + b == a + b;
    digest := ctx.Final();
  }

  /** mg_hmac_sha1 */
  method HmacSha1(f: Transform, key0: seq<byte>, data: seq<byte>) returns (out: seq<byte>)
    ensures out == Hmac(f, key0, data)
  {
    hide Hash, XorAll, Context.Valid;
    var ctx := new Context(f);
    var key := key0;
    if |key| > 64 {
      ctx.Init();
      ctx.Update(key);
      assert [] + key == key;
      key := ctx.Final();
    }
    var buf1, buf2 := Pads(key);
    out := HashOfTwo(ctx, buf1[..], data);
    out := HashOfTwo(ctx, buf2[..], out);
  }
}
