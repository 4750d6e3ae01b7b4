// What the letters of an encoded text are, apart from how they are decoded again (sections 3.3 and 4
// of RFC 4648).
module Base64Letters {
  import opened Base64

  /** The upper case letters, the lower case letters and the digits in order, then plus and slash. */
  lemma LettersAreTheAlphabet(c: octet)
    requires c < 64
    ensures c < 26 ==> Letter(c) == 'A' as octet + c
    ensures 26 <= c < 52 ==> Letter(c) == 'a' as octet + (c - 26)
    ensures 52 <= c < 62 ==> Letter(c) == '0' as octet + (c - 52)
    ensures c == 62 ==> Letter(c) == '+' as octet
    ensures c == 63 ==> Letter(c) == '/' as octet
  {
  }

  /** Only a letter of the alphabet is read as a sextet, and only the equals sign as padding. */
  lemma NothingElseIsRead(l: octet)
    ensures Sextet(l) < 64 ==> Letter(Sextet(l)) == l
    ensures Sextet(l) == 64 <==> l == '=' as octet
    ensures Sextet(l) > 64 ==> Sextet(l) == 255
  {
  }

  /** The six bits of each letter in order, highest first, are the eight bits of each octet in order. */
  lemma GroupIsBigEndian(a: octet, b: octet, c: octet)
    ensures var p, q, r, s := Top(a), WithFour(HeldTwo(a), b), WithTwo(HeldFour(b), c), Low(c);
            && p < 64 && q < 64 && r < 64 && s < 64
            && a == (p << 2) | (q >> 4) && b == (q << 4) | (r >> 2) && c == (r << 6) | s
            && Group(a, b, c) == [Letter(p), Letter(q), Letter(r), Letter(s)]
  {
    hide Letter;
  }

  /** The `k`-th three octets, missing ones taken for zero. */
  function GroupAt(x: seq<octet>, k: nat): (g: seq<octet>)
    requires 3 * k < |x|
    ensures |g| == 4
  {
    var i := 3 * k;
    Group(x[i], if i + 1 < |x| then x[i + 1] else 0, if i + 2 < |x| then x[i + 2] else 0)
  }

  /** Of four letters from `j` on, those for `n` octets, at most three, are a group's; the others are padding. */
  predicate GroupLies(e: seq<octet>, j: nat, g: seq<octet>, n: nat)
    requires |g| == 4
  {
    && j + 4 <= |e| && e[j] == g[0] && e[j + 1] == g[1]
    && e[j + 2] == (if n > 1 then g[2] else PAD) && e[j + 3] == (if n > 2 then g[3] else PAD)
  }

  /** Every three octets become four letters, in order; for octets that are missing at the end there is padding. */
  lemma {:induction false} LettersInOrder(x: seq<octet>, k: nat)
    requires 3 * k < |x|
    ensures GroupLies(Encode(x), 4 * k, GroupAt(x, k), |x| - 3 * k)
  {
    hide Encode, Group, GroupLies;
    if |x| == 1 {
      OneOctet(x);
      OneLies(GroupAt(x, 0));
    } else if |x| == 2 {
      TwoOctets(x);
      TwoLie(GroupAt(x, 0));
    } else {
      ThreeOctets(x);
      var g := Group(x[0], x[1], x[2]);
      if k == 0 {
        ThreeLie(g, Encode(x[3..]), |x|);
      } else {
        LettersInOrder(x[3..], k - 1);
        SameGroup(x, k);
        LaterLies(g, Encode(x[3..]), 4 * k - 4, GroupAt(x, k), |x| - 3 * k);
      }
    }
  }

  lemma OneOctet(x: seq<octet>)
    requires |x| == 1
    ensures Encode(x) == Group(x[0], 0, 0)[..2] + [PAD, PAD]
  {
    hide Group;
  }

  lemma TwoOctets(x: seq<octet>)
    requires |x| == 2
    ensures Encode(x) == Group(x[0], x[1], 0)[..3] + [PAD]
  {
    hide Group;
  }

  lemma ThreeOctets(x: seq<octet>)
    requires |x| >= 3
    ensures Encode(x) == Group(x[0], x[1], x[2]) + Encode(x[3..])
  {
    hide Group;
  }

  lemma OneLies(g: seq<octet>)
    requires |g| == 4
    ensures GroupLies(g[..2] + [PAD, PAD], 0, g, 1)
  {
  }

  lemma TwoLie(g: seq<octet>)
    requires |g| == 4
    ensures GroupLies(g[..3] + [PAD], 0, g, 2)
  {
  }

  lemma ThreeLie(g: seq<octet>, e: seq<octet>, n: nat)
    requires |g| == 4 && n > 2
    ensures GroupLies(g + e, 0, g, n)
  {
  }

  lemma LaterLies(g: seq<octet>, e: seq<octet>, j: nat, h: seq<octet>, n: nat)
    requires |g| == |h| == 4 && GroupLies(e, j, h, n)
    ensures GroupLies(g + e, j + 4, h, n)
  {
  }

  lemma SameGroup(x: seq<octet>, k: nat)
    requires 0 < k && 3 * k < |x|
    ensures GroupAt(x[3..], k - 1) == GroupAt(x, k)
  {
    hide Group;
  }
}
