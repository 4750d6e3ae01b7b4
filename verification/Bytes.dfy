// Octets, and the bit-level operations the C sources apply to them.
module Bytes {

  /** One octet (C's uint8_t). */
  type byte = b: int | 0 <= b < 256

  const TWO_32: int := 0x1_0000_0000

  /** C's uint32_t (and size_t, on the 32-bit target). */
  type uint32 = u: int | 0 <= u < TWO_32

  function Pow2(w: nat): (p: nat)
    ensures p > 0
  {
    if w == 0 then 1 else 2 * Pow2(w - 1)
  }

  /** Bitwise exclusive or of the low `w` bits of `a` and `b`. */
  function XorBits(a: nat, b: nat, w: nat): (r: nat)
    ensures r < Pow2(w)
  {
    if w == 0 then 0 else 2 * XorBits(a / 2, b / 2, w - 1) + (if a % 2 == b % 2 then 0 else 1)
  }

  lemma {:induction false} XorBitsTwice(a: nat, m: nat, w: nat)
    requires a < Pow2(w)
    ensures XorBits(XorBits(a, m, w), m, w) == a
  {
    if w > 0 {
      var x, h := XorBits(a, m, w), XorBits(a / 2, m / 2, w - 1);
      XorBitsTwice(a / 2, m / 2, w - 1);
      assert x / 2 == h && x % 2 == if a % 2 == m % 2 then 0 else 1;
    }
  }

  /** C's `^` on octets. */
  function Xor(a: byte, b: byte): (r: byte) {
    assert Pow2(8) == 256;
    XorBits(a, b, 8)
  }

  /** Masking twice with the same octet is the identity. */
  lemma XorTwice(a: byte, m: byte)
    ensures Xor(Xor(a, m), m) == a
  {
    assert Pow2(8) == 256;
    XorBitsTwice(a, m, 8);
  }

  lemma {:induction false} XorBitsWithNothing(b: nat, w: nat)
    requires b < Pow2(w)
    ensures XorBits(0, b, w) == b
  {
    if w > 0 {
      XorBitsWithNothing(b / 2, w - 1);
    }
  }

  lemma XorWithNothing(b: byte)
    ensures Xor(0, b) == b
  {
    assert Pow2(8) == 256;
    XorBitsWithNothing(b, 8);
  }

  /** Bit `i`. */
  predicate BitAt(x: nat, i: nat) {
    x / Pow2(i) % 2 == 1
  }

  lemma BitOfHalf(x: nat, i: nat)
    requires i > 0
    ensures BitAt(x, i) == BitAt(x / 2, i - 1)
  {
    var p := Pow2(i - 1);
    assert Pow2(i) == 2 * p;
    DivTwice(x, p);
  }

  lemma DivTwice(x: nat, p: nat)
    requires p > 0
    ensures x / (2 * p) == x / 2 / p
  {
    var q, r := x / 2 / p, x / 2 % p;
    assert x / 2 == q * p + r;
    var low := 2 * r + x % 2;
    assert x == q * (2 * p) + low && low < 2 * p;
    QuotientIs(x, 2 * p, q);
  }

  lemma QuotientIs(x: nat, p: nat, m: nat)
    requires m * p <= x < m * p + p
    ensures x / p == m
  {
    var q := x / p;
    assert x == q * p + x % p;
    assert (q - m) * p == q * p - m * p;
    Multiple(q - m, p);
  }

  lemma Multiple(d: int, p: int)
    requires p >= 0
    ensures d >= 1 ==> d * p >= p
    ensures d <= -1 ==> d * p <= -p
  {
  }

  /** Exclusive or, bit by bit. */
  lemma {:induction false} XorBitByBit(a: nat, b: nat, w: nat, i: nat)
    requires i < w
    ensures BitAt(XorBits(a, b, w), i) <==> BitAt(a, i) != BitAt(b, i)
  {
    var x, h := XorBits(a, b, w), XorBits(a / 2, b / 2, w - 1);
    if i == 0 {
      assert Pow2(0) == 1 && x % 2 == if a % 2 == b % 2 then 0 else 1;
    } else {
      assert x / 2 == h;
      XorBitByBit(a / 2, b / 2, w - 1, i - 1);
      BitOfHalf(x, i);
      BitOfHalf(a, i);
      BitOfHalf(b, i);
    }
  }

  lemma XorIsBitwise(a: byte, b: byte, i: nat)
    requires i < 8
    ensures BitAt(Xor(a, b), i) <==> BitAt(a, i) != BitAt(b, i)
  {
    XorBitByBit(a, b, 8, i);
  }

  lemma ConcatAssociates<T>(a: seq<T>, b: seq<T>, c: seq<T>)
    ensures a + (b + c) == (a + b) + c
  {
  }

  /** `x` lies in `s` at offset `ofs`. */
  ghost predicate LiesAt<T(!new)>(x: seq<T>, s: seq<T>, ofs: nat) {
    ofs + |x| <= |s| && forall i :: 0 <= i < |x| ==> x[i] == s[ofs + i]
  }

  /** A slice of what lies in `s` is a slice of `s`. */
  lemma SliceLiesAt<T(!new)>(x: seq<T>, s: seq<T>, ofs: nat, lo: nat, hi: nat)
    requires LiesAt(x, s, ofs) && lo <= hi <= |x|
    ensures x[lo..hi] == s[ofs + lo..ofs + hi]
  {
  }

  lemma RestLiesAt<T(!new)>(x: seq<T>, s: seq<T>, ofs: nat)
    requires LiesAt(x, s, ofs) && x != []
    ensures LiesAt(x[1..], s, ofs + 1)
  {
    forall i | 0 <= i < |x| - 1 ensures x[1..][i] == s[ofs + 1 + i] {
      assert x[i + 1] == s[ofs + (i + 1)];
    }
  }

  /** Where a concatenation lies, its parts lie one behind the other. */
  lemma PartsLieAt<T(!new)>(a: seq<T>, b: seq<T>, s: seq<T>, ofs: nat)
    requires LiesAt(a + b, s, ofs)
    ensures LiesAt(a, s, ofs) && LiesAt(b, s, ofs + |a|)
  {
    forall i | 0 <= i < |a| ensures a[i] == s[ofs + i] {
      assert (a + b)[i] == a[i];
    }
    forall i | 0 <= i < |b| ensures b[i] == s[ofs + |a| + i] {
      assert (a + b)[|a| + i] == b[i];
    }
  }

  lemma SliceOfPrefix<T>(a: seq<T>, b: seq<T>, lo: nat, hi: nat)
    requires lo <= hi <= |a|
    ensures (a + b)[lo..hi] == a[lo..hi]
  {
    forall i | 0 <= i < hi - lo ensures (a + b)[lo..hi][i] == a[lo..hi][i] {
    }
  }

  lemma SliceOfSlice<T>(s: seq<T>, a: nat, b: nat, lo: nat, hi: nat)
    requires a <= b <= |s| && lo <= hi <= b - a
    ensures s[a..b][lo..hi] == s[a + lo..a + hi]
  {
    forall i | 0 <= i < hi - lo ensures s[a..b][lo..hi][i] == s[a + lo..a + hi][i] {
    }
  }

  /** `s` with `x` written over the elements from `at` on. */
  function Splice<T>(s: seq<T>, at: nat, x: seq<T>): (r: seq<T>)
    requires at + |x| <= |s|
    ensures |r| == |s|
    ensures forall i {:trigger r[i]} :: 0 <= i < |s| ==> r[i] == if at <= i < at + |x| then x[i - at] else s[i]
  {
    s[..at] + x + s[at + |x|..]
  }

  /** The pieces one after the other. */
  function Concat(pieces: seq<seq<byte>>): (s: seq<byte>) {
    if pieces == [] then [] else pieces[0] + Concat(pieces[1..])
  }

  /** A splice inside a prefix. */
  lemma SpliceInPrefix<T>(m: seq<T>, n: nat, at: nat, x: seq<T>)
    requires at + |x| <= n <= |m|
    ensures Splice(m, at, x)[..n] == Splice(m[..n], at, x)
  {
  }

  /** One splice directly behind another. */
  lemma SpliceOn<T>(s: seq<T>, at: nat, x: seq<T>, y: seq<T>)
    requires at + |x| + |y| <= |s|
    ensures Splice(Splice(s, at, x), at + |x|, y) == Splice(s, at, x + y)
  {
  }

  /** Behind a splice everything is as it was. */
  lemma BehindSplice<T>(s: seq<T>, at: nat, x: seq<T>, lo: nat, hi: nat)
    requires at + |x| <= lo <= hi <= |s|
    ensures Splice(s, at, x)[lo..hi] == s[lo..hi]
  {
  }

  lemma SpliceSelf<T>(s: seq<T>, at: nat, n: nat)
    requires at + n <= |s|
    ensures Splice(s, at, s[at..at + n]) == s
  {
  }

  /** Big-endian unsigned integers. */
  function Be16(n: nat): (s: seq<byte>)
    ensures |s| == 2
  {
    [n / 256 % 256, n % 256]
  }

  function Be32(n: nat): (s: seq<byte>)
    ensures |s| == 4
  {
    Be16(n / 0x1_0000 % 0x1_0000) + Be16(n % 0x1_0000)
  }

  /** mg_ntohs and mg_ntohl of the bytes at `i`. */
  function Num16(s: seq<byte>, i: nat): (n: nat)
    requires i + 2 <= |s|
    ensures n < 0x1_0000
  {
    s[i] as int * 256 + s[i + 1]
  }

  function Num32(s: seq<byte>, i: nat): (n: nat)
    requires i + 4 <= |s|
    ensures n < TWO_32
  {
    0x1_0000 * Num16(s, i) + Num16(s, i + 2)
  }

  lemma Be16RoundTrip(n: nat)
    requires n < 0x1_0000
    ensures Num16(Be16(n), 0) == n
  {
  }

  lemma Be32RoundTrip(n: nat)
    requires n < TWO_32
    ensures Num32(Be32(n), 0) == n
  {
    var hi, lo := n / 0x1_0000, n % 0x1_0000;
    HighHalf(n);
    hide Be16, Num16;
    Be16RoundTrip(hi);
    Be16RoundTrip(lo);
    Num16Parts(Be16(hi), Be16(lo));
  }

  lemma HighHalf(n: nat)
    requires n < TWO_32
    ensures n / 0x1_0000 < 0x1_0000 && n / 0x1_0000 % 0x1_0000 == n / 0x1_0000
    ensures n == 0x1_0000 * (n / 0x1_0000) + n % 0x1_0000
  {
  }

  lemma Num16Parts(a: seq<byte>, b: seq<byte>)
    requires |a| == 2 && |b| == 2
    ensures Num16(a + b, 0) == Num16(a, 0) && Num16(a + b, 2) == Num16(b, 0)
  {
    assert (a + b)[2] == b[0] && (a + b)[3] == b[1];
  }

  /** Bitwise or of the low `w` bits of `a` and `b`. */
  function OrBits(a: nat, b: nat, w: nat): (r: nat)
    ensures r < Pow2(w)
  {
    if w == 0 then 0 else 2 * OrBits(a / 2, b / 2, w - 1) + (if a % 2 == 1 || b % 2 == 1 then 1 else 0)
  }

  lemma {:induction false} OrNothing(a: nat, w: nat)
    requires a < Pow2(w)
    ensures OrBits(a, 0, w) == a
  {
    if w > 0 {
      OrNothing(a / 2, w - 1);
    }
  }

  /** Where the low `k` bits of `a` are clear, or-ing something below 2^k is adding it. */
  lemma {:induction false} OrIntoClearBits(a: nat, b: nat, k: nat, w: nat)
    requires k <= w && a * Pow2(k) < Pow2(w) && b < Pow2(k)
    ensures OrBits(a * Pow2(k), b, w) == a * Pow2(k) + b
    decreases w
  {
    if k == 0 {
      OrNothing(a, w);
    } else {
      var p := Pow2(k - 1);
      assert a * Pow2(k) == 2 * (a * p);
      assert (2 * (a * p)) / 2 == a * p && (2 * (a * p)) % 2 == 0;
      OrIntoClearBits(a, b / 2, k - 1, w - 1);
    }
  }
}
