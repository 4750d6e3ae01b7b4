// components/mongoose/src/base64.c: the streaming encoder, which keeps the bits of
// an unfinished sextet in the output buffer, and the decoder (section 4 of RFC
// 4648).
module Base64 {

  type octet = bv8

  const PAD: octet := 61   // '='

  /** mg_b64idx */
  function Letter(c: octet): (l: octet) {
    if c < 26 then c + 65
    else if c < 52 then c - 26 + 97
    else if c < 62 then c - 52 + 48
    else if c == 62 then 43
    else 47
  }

  /** mg_b64rev; 64 for the pad, 255 for anything else. */
  function Sextet(l: octet): (c: octet) {
    if 65 <= l <= 90 then l - 65
    else if 97 <= l <= 122 then l - 97 + 26
    else if 48 <= l <= 57 then l - 48 + 52
    else if l == 43 then 62
    else if l == 47 then 63
    else if l == PAD then 64
    else 255
  }

  // --------------------------------------------------- the bits of a group of three

  /** The first sextet of `a`. */
  function Top(a: octet): octet { a >> 2 }

  /** The last two bits of `a`, where they stand in the second sextet. */
  function HeldTwo(a: octet): octet { (a & 3) << 4 }

  function WithFour(held: octet, b: octet): octet { held | (b >> 4) }

  /** The last four bits of `b`, where they stand in the third sextet. */
  function HeldFour(b: octet): octet { (b & 15) << 2 }

  function WithTwo(held: octet, c: octet): octet { held | (c >> 6) }

  function Low(c: octet): octet { c & 63 }

  /** The octets of four sextets. */
  function JoinFirst(p: octet, q: octet): octet { (p << 2) | (q >> 4) }

  function JoinSecond(q: octet, r: octet): octet { (q << 4) | (r >> 2) }

  function JoinThird(r: octet, s: octet): octet { (r << 6) | s }

  lemma GroupBits(a: octet, b: octet, c: octet)
    ensures Top(a) < 64 && WithFour(HeldTwo(a), b) < 64 && WithTwo(HeldFour(b), c) < 64 && Low(c) < 64
    ensures JoinFirst(Top(a), WithFour(HeldTwo(a), b)) == a
    ensures JoinSecond(WithFour(HeldTwo(a), b), WithTwo(HeldFour(b), c)) == b
    ensures JoinThird(WithTwo(HeldFour(b), c), Low(c)) == c
  {
  }

  // ------------------------------------------------------------ specification

  /** The four letters of three octets. */
  function Group(a: octet, b: octet, c: octet): (g: seq<octet>)
    ensures |g| == 4
  {
    [Letter(Top(a)), Letter(WithFour(HeldTwo(a), b)), Letter(WithTwo(HeldFour(b), c)), Letter(Low(c))]
  }

  function Encode(x: seq<octet>): (e: seq<octet>)
    ensures |e| == 4 * ((|x| + 2) / 3)
  {
    if |x| == 0 then []
    else if |x| == 1 then Group(x[0], 0, 0)[..2] + [PAD, PAD]
    else if |x| == 2 then Group(x[0], x[1], 0)[..3] + [PAD]
    else Group(x[0], x[1], x[2]) + Encode(x[3..])
  }

  /** Four letters that decode to at least one octet. */
  predicate GroupOk(a: octet, b: octet, c: octet, d: octet) {
    Sextet(a) < 64 && Sextet(b) < 64 && Sextet(c) <= 64 && Sextet(d) <= 64
  }

  function Ungroup(a: octet, b: octet, c: octet, d: octet): (x: seq<octet>)
    ensures 1 <= |x| <= 3
  {
    [JoinFirst(Sextet(a), Sextet(b))]
    + (if c == PAD then []
       else [JoinSecond(Sextet(b), Sextet(c))] + (if d == PAD then [] else [JoinThird(Sextet(c), Sextet(d))]))
  }

  /** The complete groups are all decodable. */
  predicate AllOk(s: seq<octet>) {
    |s| < 4 || (GroupOk(s[0], s[1], s[2], s[3]) && AllOk(s[4..]))
  }

  function Octets(s: seq<octet>): (x: seq<octet>) {
    if |s| < 4 then [] else Ungroup(s[0], s[1], s[2], s[3]) + Octets(s[4..])
  }

  /** mg_base64_decode: nothing for a bad group anywhere, and a rest of less than a group is ignored. */
  function Decode(s: seq<octet>): (x: seq<octet>) {
    if AllOk(s) then Octets(s) else []
  }

  lemma LetterSextet(c: octet)
    requires c < 64
    ensures Sextet(Letter(c)) == c && Letter(c) != PAD
  {
  }

  lemma PadSextet()
    ensures Sextet(PAD) == 64
  {
  }

  /** A group of letters gives back its octets, whole or cut short. */
  lemma UngroupGroup(a: octet, b: octet, c: octet)
    ensures var g := Group(a, b, c);
            && GroupOk(g[0], g[1], g[2], g[3]) && Ungroup(g[0], g[1], g[2], g[3]) == [a, b, c]
            && GroupOk(g[0], g[1], g[2], PAD) && Ungroup(g[0], g[1], g[2], PAD) == [a, b]
            && GroupOk(g[0], g[1], PAD, PAD) && Ungroup(g[0], g[1], PAD, PAD) == [a]
  {
    hide Letter, Sextet, Top, HeldTwo, WithFour, HeldFour, WithTwo, Low, JoinFirst, JoinSecond, JoinThird;
    GroupBits(a, b, c);
    LetterSextet(Top(a));
    LetterSextet(WithFour(HeldTwo(a), b));
    LetterSextet(WithTwo(HeldFour(b), c));
    LetterSextet(Low(c));
    PadSextet();
  }

  /** Decoding undoes encoding. */
  lemma {:induction false} RoundTrip(x: seq<octet>)
    ensures Decode(Encode(x)) == x
    ensures AllOk(Encode(x)) && Octets(Encode(x)) == x
  {
    hide Group, GroupOk, Ungroup, Letter, Sextet;
    var e := Encode(x);
    if |x| == 0 {
    } else {
      var a, b, c := x[0], if |x| > 1 then x[1] else 0, if |x| > 2 then x[2] else 0;
      UngroupGroup(a, b, c);
      if |x| <= 2 {
        assert e[4..] == [] && AllOk([]) && Octets([]) == [];
        assert Octets(e) == Ungroup(e[0], e[1], e[2], e[3]) + [];
        assert x == if |x| == 1 then [a] else [a, b];
      } else {
        RoundTrip(x[3..]);
        assert e[4..] == Encode(x[3..]);
        assert x == [a, b, c] + x[3..];
      }
    }
  }

  // ---------------------------------------------------------- the streaming encoder

  /** The number of finished letters after `m` octets. */
  function Position(m: nat): (n: nat) {
    4 * (m / 3) + m % 3
  }

  /**
   * What the output buffer holds after `m` octets: the finished letters, and behind them the bits of
   * an unfinished sextet.
   */
  function HeldLength(m: nat): (n: nat) {
    Position(m) + if m % 3 == 0 then 0 else 1
  }

  function Streamed(x: seq<octet>): (s: seq<octet>)
    ensures |s| == HeldLength(|x|)
  {
    if |x| == 0 then []
    else if |x| == 1 then [Letter(Top(x[0])), HeldTwo(x[0])]
    else if |x| == 2 then [Letter(Top(x[0])), Letter(WithFour(HeldTwo(x[0]), x[1])), HeldFour(x[1])]
    else Group(x[0], x[1], x[2]) + Streamed(x[3..])
  }

  /** What one more octet changes. */
  function Extended(s: seq<octet>, m: nat, ch: octet): (s': seq<octet>)
    requires |s| == HeldLength(m)
    ensures |s'| == HeldLength(m + 1)
  {
    if m % 3 == 0 then s + [Letter(Top(ch)), HeldTwo(ch)]
    else if m % 3 == 1 then s[..|s| - 1] + [Letter(WithFour(s[|s| - 1], ch)), HeldFour(ch)]
    else s[..|s| - 1] + [Letter(WithTwo(s[|s| - 1], ch)), Letter(Low(ch))]
  }

  lemma ThreeMore(m: nat)
    ensures (m + 3) % 3 == m % 3 && Position(m + 3) == Position(m) + 4 && HeldLength(m + 3) == HeldLength(m) + 4
  {
  }

  lemma AllButLast(g: seq<octet>, s: seq<octet>, more: seq<octet>)
    requires |s| > 0
    ensures (g + s)[..|g + s| - 1] + more == g + (s[..|s| - 1] + more) && (g + s)[|g + s| - 1] == s[|s| - 1]
  {
  }

  lemma ExtendedBehind(g: seq<octet>, s: seq<octet>, m: nat, ch: octet)
    requires |g| == 4 && |s| == HeldLength(m)
    ensures |g + s| == HeldLength(m + 3) && Extended(g + s, m + 3, ch) == g + Extended(s, m, ch)
  {
    ThreeMore(m);
    hide Position, Letter, Top, HeldTwo, WithFour, HeldFour, WithTwo, Low;
    if m % 3 == 0 {
      assert (g + s) + [Letter(Top(ch)), HeldTwo(ch)] == g + (s + [Letter(Top(ch)), HeldTwo(ch)]);
    } else if m % 3 == 1 {
      AllButLast(g, s, [Letter(WithFour(s[|s| - 1], ch)), HeldFour(ch)]);
    } else {
      AllButLast(g, s, [Letter(WithTwo(s[|s| - 1], ch)), Letter(Low(ch))]);
    }
  }

  lemma {:induction false} StreamedSnoc(x: seq<octet>, ch: octet)
    ensures Streamed(x + [ch]) == Extended(Streamed(x), |x|, ch)
    decreases |x|
  {
    hide Group, Extended, Letter, Top, HeldTwo, WithFour, HeldFour, WithTwo, Low;
    if |x| >= 3 {
      StreamedSnoc(x[3..], ch);
      assert (x + [ch])[3..] == x[3..] + [ch];
      ExtendedBehind(Group(x[0], x[1], x[2]), Streamed(x[3..]), |x| - 3, ch);
    } else {
      StreamedSnocShort(x, ch);
    }
  }

  lemma StreamedSnocShort(x: seq<octet>, ch: octet)
    requires |x| < 3
    ensures Streamed(x + [ch]) == Extended(Streamed(x), |x|, ch)
  {
    hide Streamed, Extended;
    if |x| == 0 {
      StreamedOne(ch);
      assert x == [] && x + [ch] == [ch];
    } else if |x| == 1 {
      StreamedTwo(x[0], ch);
      assert x == [x[0]] && x + [ch] == [x[0], ch];
    } else {
      StreamedThree(x[0], x[1], ch);
      assert x == [x[0], x[1]] && x + [ch] == [x[0], x[1], ch];
    }
  }

  lemma StreamedOne(ch: octet)
    ensures Streamed([ch]) == Extended(Streamed([]), 0, ch)
  {
    hide Letter, Top, HeldTwo, WithFour, HeldFour, WithTwo, Low;
  }

  lemma StreamedTwo(a: octet, ch: octet)
    ensures Streamed([a, ch]) == Extended(Streamed([a]), 1, ch)
  {
    hide Letter, Top, HeldTwo, WithFour, HeldFour, WithTwo, Low;
    var held := Streamed([a]);
    assert held == [Letter(Top(a)), HeldTwo(a)];
    assert held[..1] == [Letter(Top(a))];
  }

  lemma StreamedThree(a: octet, b: octet, ch: octet)
    ensures Streamed([a, b, ch]) == Extended(Streamed([a, b]), 2, ch)
  {
    hide Letter, Top, HeldTwo, WithFour, HeldFour, WithTwo, Low;
    var held := Streamed([a, b]);
    assert held == [Letter(Top(a)), Letter(WithFour(HeldTwo(a), b)), HeldFour(b)];
    assert held[..2] == [Letter(Top(a)), Letter(WithFour(HeldTwo(a), b))];
    assert [a, b, ch][3..] == [] && Streamed([a, b, ch][3..]) == [];
  }

  /** What the final call makes of the held bits. */
  function Finished(s: seq<octet>, m: nat): (e: seq<octet>)
    requires |s| == HeldLength(m)
    ensures |e| == 4 * ((m + 2) / 3)
  {
    if m % 3 == 0 then s
    else if m % 3 == 1 then s[..|s| - 1] + [Letter(WithFour(s[|s| - 1], 0)), PAD, PAD]
    else s[..|s| - 1] + [Letter(WithTwo(s[|s| - 1], 0)), PAD]
  }

  lemma FinishedBehind(g: seq<octet>, s: seq<octet>, m: nat)
    requires |g| == 4 && |s| == HeldLength(m)
    ensures |g + s| == HeldLength(m + 3) && Finished(g + s, m + 3) == g + Finished(s, m)
  {
    hide Letter, WithFour, WithTwo;
    if m % 3 != 0 {
      assert (g + s)[..|g + s| - 1] == g + s[..|s| - 1];
    }
  }

  lemma FinishedOne(a: octet)
    ensures Encode([a]) == Finished(Streamed([a]), 1)
  {
    hide Letter, Top, HeldTwo, WithFour, HeldFour, WithTwo, Low;
    var held := Streamed([a]);
    assert held == [Letter(Top(a)), HeldTwo(a)];
    assert held[..|held| - 1] == [Letter(Top(a))];
    assert Group(a, 0, 0)[..2] == [Letter(Top(a)), Letter(WithFour(HeldTwo(a), 0))];
  }

  lemma FinishedTwo(a: octet, b: octet)
    ensures Encode([a, b]) == Finished(Streamed([a, b]), 2)
  {
    hide Letter, Top, HeldTwo, WithFour, HeldFour, WithTwo, Low;
    var held := Streamed([a, b]);
    assert held == [Letter(Top(a)), Letter(WithFour(HeldTwo(a), b)), HeldFour(b)];
    assert held[..|held| - 1] == [Letter(Top(a)), Letter(WithFour(HeldTwo(a), b))];
    assert Group(a, b, 0)[..3] == [Letter(Top(a)), Letter(WithFour(HeldTwo(a), b)), Letter(WithTwo(HeldFour(b), 0))];
  }

  /** Padding what is held gives the encoding. */
  lemma {:induction false} StreamedFinishes(x: seq<octet>)
    ensures Encode(x) == Finished(Streamed(x), |x|)
    decreases |x|
  {
    hide Group, Finished;
    if |x| == 0 {
      FinishedNothing();
    } else if |x| == 1 {
      FinishedOne(x[0]);
      assert x == [x[0]];
    } else if |x| == 2 {
      FinishedTwo(x[0], x[1]);
      assert x == [x[0], x[1]];
    } else {
      StreamedFinishes(x[3..]);
      FinishedBehind(Group(x[0], x[1], x[2]), Streamed(x[3..]), |x| - 3);
    }
  }

  lemma FinishedNothing()
    ensures Encode([]) == Finished(Streamed([]), 0)
  {
  }

  lemma OneOctetMore(m: nat)
    ensures Position(m) % 4 == m % 3
    ensures HeldLength(m) == Position(m) + if m % 3 == 0 then 0 else 1
    ensures Position(m + 1) == Position(m) + if m % 3 == 2 then 2 else 1
    ensures HeldLength(m + 1) == Position(m) + 2
  {
  }

  /** mg_base64_update; `m` octets have been fed so far. */
  method Update(ch: octet, to: array<octet>, n: nat, ghost m: nat) returns (n': nat)
    requires n == Position(m) && n + 2 <= to.Length
    modifies to
    ensures n' == Position(m + 1)
    ensures to[..HeldLength(m + 1)] == Extended(old(to[..HeldLength(m)]), m, ch)
    ensures to[HeldLength(m + 1)..] == old(to[HeldLength(m + 1)..])
  {
    hide Letter, Top, HeldTwo, WithFour, HeldFour, WithTwo, Low, Position, HeldLength;
    OneOctetMore(m);
    var rem := n % 4 % 3;
    n' := n;
    if rem == 0 {
      to[n'] := Letter(Top(ch));
      n' := n' + 1;
      to[n'] := HeldTwo(ch);
    } else if rem == 1 {
      to[n'] := Letter(WithFour(to[n'], ch));
      n' := n' + 1;
      to[n'] := HeldFour(ch);
    } else {
      to[n'] := Letter(WithTwo(to[n'], ch));
      n' := n' + 1;
      to[n'] := Letter(Low(ch));
      n' := n' + 1;
    }
  }

  /** Feeding a zero finishes the sextet that is held; everything behind it is padding. */
  lemma ZeroFinishes(s: seq<octet>, m: nat)
    requires |s| == HeldLength(m)
    ensures |Finished(s, m)| - 4 < |s| <= |Finished(s, m)|
    ensures forall k :: |s| <= k < |Finished(s, m)| ==> Finished(s, m)[k] == PAD
    ensures m % 3 != 0 ==> Extended(s, m, 0)[..|s|] == Finished(s, m)[..|s|]
    ensures m % 3 == 0 ==> s == Finished(s, m)
  {
    hide Letter, Top, HeldTwo, WithFour, HeldFour, WithTwo, Low;
  }

  /** The closing loop of mg_base64_final, `e` being what is to stand in the buffer. */
  method PadOut(to: array<octet>, n: nat, ghost e: seq<octet>) returns (n': nat)
    requires |e| % 4 == 0 && |e| - 4 < n <= |e| < to.Length
    requires to[..n] == e[..n] && forall k :: n <= k < |e| ==> e[k] == PAD
    modifies to
    ensures n' == |e| && to[..n'] == e && to[n'] == 0
  {
    n' := n;
    while n' % 4 != 0
      invariant n <= n' <= |e| && to[..n'] == e[..n']
      decreases |e| - n'
    {
      to[n'] := PAD;
      n' := n' + 1;
    }
    to[n'] := 0;
  }

  /** The letter count tells how many bits are held, and by how much a fed zero overshoots. */
  lemma LettersTellTheRest(m: nat)
    ensures Position(m) % 4 == m % 3
    ensures m % 3 == 0 ==> HeldLength(m) == Position(m)
    ensures m % 3 == 1 ==> HeldLength(m) == Position(m + 1) && HeldLength(m + 1) > Position(m + 1)
    ensures m % 3 == 2 ==> HeldLength(m) + 1 == Position(m + 1) == HeldLength(m + 1)
    ensures HeldLength(m) <= 4 * ((m + 2) / 3) && (m % 3 != 0 ==> Position(m) + 2 <= 4 * ((m + 2) / 3))
  {
    var q, r := m / 3, m % 3;
    PositionOf(q, r);
    if r == 0 {
      Thirds(q, 2);
    } else if r == 1 {
      PositionOf(q, 2);
      Thirds(q + 1, 0);
    } else {
      PositionOf(q + 1, 0);
      Thirds(q + 1, 1);
    }
  }

  lemma Thirds(q: nat, r: nat)
    requires r < 3
    ensures (3 * q + r) / 3 == q && (3 * q + r) % 3 == r
  {
  }

  lemma PositionOf(q: nat, r: nat)
    requires r < 3
    ensures Position(3 * q + r) == 4 * q + r && Position(3 * q + r) % 4 == r
  {
    Thirds(q, r);
  }

  /** Once the sextet that is held is finished, the encoding lacks its padding only. */
  lemma OnlyPaddingIsMissing(x: seq<octet>, t: seq<octet>)
    requires |t| == HeldLength(|x|)
    requires t == if |x| % 3 == 0 then Streamed(x) else Extended(Streamed(x), |x|, 0)[..|t|]
    ensures |Encode(x)| % 4 == 0 && |Encode(x)| - 4 < |t| <= |Encode(x)| <= 4 * ((|x| + 2) / 3)
    ensures t == Encode(x)[..|t|] && forall k :: |t| <= k < |Encode(x)| ==> Encode(x)[k] == PAD
  {
    hide Streamed, Encode, Extended, Finished, HeldLength;
    StreamedFinishes(x);
    ZeroFinishes(Streamed(x), |x|);
  }

  /** mg_base64_final: the encoding of everything fed, padded and zero-terminated. */
  method Final(to: array<octet>, n: nat, ghost x: seq<octet>) returns (n': nat)
    requires n == Position(|x|) && to.Length > 4 * ((|x| + 2) / 3)
    requires to[..HeldLength(|x|)] == Streamed(x)
    modifies to
    ensures n' == |Encode(x)| && to[..n'] == Encode(x) && to[n'] == 0
  {
    hide *;
    LettersTellTheRest(|x|);
    n' := FinishSextet(to, n, |x|, Streamed(x));
    OnlyPaddingIsMissing(x, to[..n']);
    n' := PadOut(to, n', Encode(x));
  }

  /** The first half of mg_base64_final: a zero is fed if a sextet is unfinished. */
  method FinishSextet(to: array<octet>, n: nat, ghost m: nat, ghost s: seq<octet>) returns (n': nat)
    requires n == Position(m) && to.Length > 4 * ((m + 2) / 3)
    requires HeldLength(m) <= to.Length && to[..HeldLength(m)] == s && |s| == HeldLength(m)
    modifies to
    ensures n' == HeldLength(m) <= to.Length
    ensures to[..n'] == if m % 3 == 0 then s else Extended(s, m, 0)[..n']
  {
    LettersTellTheRest(m);
    hide Extended, HeldLength, Position;
    var saved := n;
    n' := n;
    if n' % 4 != 0 {
      n' := Update(0, to, n', m);
    }
    if saved % 4 == 2 { n' := n' - 1; }
  }

  /** mg_base64_encode */
  method EncodeInto(p: seq<octet>, to: array<octet>) returns (len: nat)
    requires to.Length > 4 * ((|p| + 2) / 3)
    modifies to
    ensures len == |Encode(p)| && to[..len] == Encode(p) && to[len] == 0
  {
    hide Streamed, Encode;
    len := 0;
    var i := 0;
    assert p[..0] == [] && Streamed([]) == [] by { StreamedNothing(); }
    while i < |p|
      invariant 0 <= i <= |p| && len == Position(i)
      invariant to[..HeldLength(i)] == Streamed(p[..i])
    {
      assert p[..i] + [p[i]] == p[..i + 1];
      StreamedSnoc(p[..i], p[i]);
      len := Update(p[i], to, len, i);
      i := i + 1;
    }
    assert p[..|p|] == p;
    len := Final(to, len, p);
  }

  lemma StreamedNothing()
    ensures Streamed([]) == []
  {
  }

  lemma {:induction false} OctetsSnoc(s: seq<octet>, g: seq<octet>)
    requires |s| % 4 == 0 && |g| == 4
    ensures AllOk(s + g) <==> AllOk(s) && GroupOk(g[0], g[1], g[2], g[3])
    ensures Octets(s + g) == Octets(s) + Ungroup(g[0], g[1], g[2], g[3])
  {
    hide GroupOk, Ungroup;
    if |s| < 4 {
      assert s == [] && s + g == g && g[4..] == [];
    } else {
      OctetsSnoc(s[4..], g);
      assert (s + g)[4..] == s[4..] + g;
      var first, last := Ungroup(s[0], s[1], s[2], s[3]), Ungroup(g[0], g[1], g[2], g[3]);
      assert first + (Octets(s[4..]) + last) == (first + Octets(s[4..])) + last;
    }
  }

  /** A rest of less than a group changes nothing. */
  lemma {:induction false} OctetsOfGroups(s: seq<octet>, m: nat)
    requires m % 4 == 0 && m <= |s| < m + 4
    ensures AllOk(s) == AllOk(s[..m]) && Octets(s) == Octets(s[..m])
  {
    hide GroupOk, Ungroup;
    if m >= 4 {
      OctetsOfGroups(s[4..], m - 4);
      assert s[4..][..m - 4] == s[..m][4..];
    }
  }

  /** One bad group anywhere spoils the whole. */
  lemma {:induction false} BadGroupSpoils(s: seq<octet>, m: nat)
    requires m % 4 == 0 && m + 4 <= |s|
    requires !GroupOk(s[m], s[m + 1], s[m + 2], s[m + 3])
    ensures !AllOk(s)
  {
    hide GroupOk, Ungroup;
    if m >= 4 {
      BadGroupSpoils(s[4..], m - 4);
    }
  }

  lemma {:induction false} OctetsFit(s: seq<octet>)
    ensures |Octets(s)| <= 3 * (|s| / 4)
  {
    hide Ungroup;
    if |s| >= 4 {
      OctetsFit(s[4..]);
    }
  }

  /** One group of mg_base64_decode's loop. */
  method DecodeGroup(a: octet, b: octet, c: octet, d: octet, dst: array<octet>, len: nat) returns (len': nat)
    requires len + 3 <= dst.Length
    modifies dst
    ensures len' == len + |Ungroup(a, b, c, d)|
    ensures dst[..len'] == old(dst[..len]) + Ungroup(a, b, c, d)
  {
    hide Sextet, JoinFirst, JoinSecond, JoinThird;
    len' := len;
    dst[len'] := JoinFirst(Sextet(a), Sextet(b));
    len' := len' + 1;
    if c != PAD {
      dst[len'] := JoinSecond(Sextet(b), Sextet(c));
      len' := len' + 1;
      if d != PAD {
        dst[len'] := JoinThird(Sextet(c), Sextet(d));
        len' := len' + 1;
      }
    }
  }

  /** mg_base64_decode; on a bad group nothing is returned and no terminator is written. */
  method DecodeInto(src: seq<octet>, dst: array<octet>) returns (len: nat)
    requires dst.Length > 3 * (|src| / 4)
    modifies dst
    ensures len == |Decode(src)| && len < dst.Length && dst[..len] == Decode(src)
    ensures AllOk(src) ==> dst[len] == 0
  {
    hide GroupOk, Ungroup, AllOk, Octets;
    len := 0;
    var at := 0;
    NoOctets();
    assert src[..0] == [];
    while at + 3 < |src|
      invariant at % 4 == 0 && at <= |src|
      invariant AllOk(src[..at]) && len <= 3 * (at / 4) && len < dst.Length && dst[..len] == Octets(src[..at])
    {
      var g := src[at..at + 4];
      assert src[..at] + g == src[..at + 4];
      OctetsSnoc(src[..at], g);
      var ok := GroupIsOk(g[0], g[1], g[2], g[3]);
      if !ok {
        BadGroupSpoils(src, at);
        return 0;
      }
      len := DecodeGroup(g[0], g[1], g[2], g[3], dst, len);
      at := at + 4;
    }
    OctetsOfGroups(src, at);
    dst[len] := 0;
  }

  lemma NoOctets()
    ensures AllOk([]) && Octets([]) == []
  {
  }

  /** The loop's test: 64 is the pad, 255 what the source returns as -1. */
  method GroupIsOk(a: octet, b: octet, c: octet, d: octet) returns (ok: bool)
    ensures ok == GroupOk(a, b, c, d)
  {
    var p, q, r, s := Sextet(a), Sextet(b), Sextet(c), Sextet(d);
    ok := !(p == 64 || p == 255 || q == 64 || q == 255 || r == 255 || s == 255);
  }
}
