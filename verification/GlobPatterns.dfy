// Patterns that the loop of mg_globmatch does not decide by the documented meaning,
// and exactly which patterns with one star it does.
module GlobPatterns {
  import opened Bytes
  import opened Glob
  import opened GlobStars

  // ------------------------------------------------- a star behind the last hash

  function Repeat(c: char, n: nat): (t: string)
    ensures |t| == n && forall k :: 0 <= k < n ==> t[k] == c
  {
    seq(n, k => c)
  }

  /** On slashes enough a star that no hash follows ends the loop. */
  lemma {:induction false} StuckAtSlashes(p: string, t: string, past: char, i: nat, j: nat, ni: nat, nj: nat)
      returns (n: nat)
    requires ni < |p| && p[ni] == '*' && i <= |p| && Plain(t) && j + (|p| - i) < |t|
    requires forall k :: i <= k < |p| ==> p[k] != '#'
    requires forall k :: j <= k <= j + (|p| - i) ==> t[k] == '/'
    ensures Turns(p, t, past, Cursor(i, j, ni, nj), n) == Answer(false)
    decreases |p| - i
  {
    if i < |p| && (p[i] == '?' || t[j] == p[i]) {
      n := StuckAtSlashes(p, t, past, i + 1, j + 1, ni, nj);
      n := n + 1;
    } else if i < |p| && Wild(p[i]) {
      n := StuckAtSlashes(p, t, past, i + 1, j, i, j + 1);
      n := n + 1;
    } else {
      n := 1;
      OneTurn(p, t, past, Cursor(i, j, ni, nj));
    }
  }

  /** What stands between the hash and the star, slashes, and then the rest from behind the hash on. */
  function Flooded(a: string, b: string, r: string): (t: string) {
    InARow(Lits(a), Lits(b), Repeat('/', |r| + 1), Lits(b + "*" + r))
  }

  function InARow(a: string, b: string, c: string, d: string): (t: string)
    ensures |t| == |a| + |b| + |c| + |d|
  {
    a + b + c + d
  }

  lemma FloodedParts(a: string, b: string, r: string)
    ensures var t, l := Flooded(a, b, r), Lits(b + "*" + r);
            && Plain(t) && LiesAt(Lits(a + "#" + b), t, 0) && LiesAt(Lits(a), t, 0)
            && |Lits(a + "#" + b)| == |Lits(a)| + |Lits(b)|
            && |t| == |Lits(a)| + |Lits(b)| + |r| + 1 + |l|
            && LiesAt(l, t, |t| - |l|)
            && forall k :: |Lits(a)| + |Lits(b)| <= k <= |Lits(a)| + |Lits(b)| + |r| ==> t[k] == '/'
  {
    LitsAround(a, b);
    hide Lits, InARow, Plain, LiesAt;
    LitsArePlain(a);
    LitsArePlain(b);
    LitsArePlain(b + "*" + r);
    RepeatIsPlain('/', |r| + 1);
    var s, t := Repeat('/', |r| + 1), Flooded(a, b, r);
    FourParts(Lits(a), Lits(b), s, Lits(b + "*" + r));
    SlashesThere(s, t, |Lits(a)| + |Lits(b)|);
  }

  lemma LitsAround(a: string, b: string)
    ensures Lits(a + "#" + b) == Lits(a) + Lits(b)
  {
    LitsSplit(a + "#", b);
    LitsSplit(a, "#");
    assert Lits("#") == "" + Lits("");
    assert Lits(a) + "" == Lits(a);
  }

  lemma SlashesThere(s: string, t: string, ofs: nat)
    requires LiesAt(s, t, ofs) && forall k :: 0 <= k < |s| ==> s[k] == '/'
    ensures forall k :: ofs <= k < ofs + |s| ==> t[k] == '/'
  {
    forall k | ofs <= k < ofs + |s| ensures t[k] == '/' {
      assert s[k - ofs] == t[ofs + (k - ofs)];
    }
  }

  lemma RepeatIsPlain(c: char, n: nat)
    requires !Wild(c)
    ensures Plain(Repeat(c, n))
  {
  }

  /** Four texts one behind the other. */
  lemma FourParts(a: string, b: string, c: string, d: string)
    requires Plain(a) && Plain(b) && Plain(c) && Plain(d)
    ensures var t := InARow(a, b, c, d);
            && Plain(t) && LiesAt(a + b, t, 0) && LiesAt(a, t, 0) && LiesAt(b, t, |a|)
            && LiesAt(c, t, |a| + |b|) && LiesAt(d, t, |a| + |b| + |c|)
  {
  }

  /** Behind a hash whose match is settled too early such a pattern refuses a text that it matches. */
  lemma NeverRightWithStarBehindLastHash(a: string, b: string, r: string, past: char)
    requires Plain(b) && '#' !in r
    ensures !Right(a + "#" + b + "*" + r, past)
  {
    hide Lits, Flooded, Right, SlashMatches, Reaches, Plain;
    var p, t, h, s := a + "#" + b + "*" + r, Flooded(a, b, r), |a|, |a| + 1 + |b|;
    var l := Lits(b + "*" + r);
    FloodedParts(a, b, r);
    PlainIsApart(p, t);
    assert p[..s] == a + "#" + b && p[..h] == a && p[h + 1..] == b + "*" + r && p[s + 1..] == r;
    FirstTrial(p, t, past, s);
    var k := |Lits(p[..s])|;
    var n := StuckAtSlashes(p, t, past, s + 1, k, s, k + 1);
    ReachesOn(p, t, past, Trial(s, k), n);
    assert Answers(p, t, past, false) by { ReachedAnswer(p, t, past, false); }
    FloodedMatches(p, t, h, |Lits(a)|, |t| - |l|);
    NotRight(p, past, t, false);
  }

  lemma ReachedAnswer(p: string, t: string, past: char, b: bool)
    requires Reaches(p, t, past, Answer(b))
    ensures Answers(p, t, past, b)
  {
  }

  /** The hash takes everything up to `k`; every other wildcard takes nothing. */
  lemma FloodedMatches(p: string, t: string, h: nat, j: nat, k: nat)
    requires h < |p| && p[h] == '#' && LiesAt(Lits(p[..h]), t, 0) && j == |Lits(p[..h])| <= k
    requires LiesAt(Lits(p[h + 1..]), t, k) && k + |Lits(p[h + 1..])| == |t|
    ensures SlashMatches(p, t, 0, 0)
  {
    hide SlashMatches;
    SlashMatchesHere(p, t, |p|, |t|);
    var n := |p| - h - 1;
    assert p[h + 1..h + 1 + n] == p[h + 1..];
    LitsInFront(p, t, h + 1, k, n);
    WildTakes(p, t, h, j, k);
    assert p[0..0 + h] == p[..h];
    LitsInFront(p, t, 0, 0, h);
  }

  // ------------------------------------------------- a question mark between two stars

  /** The text offers what is between the stars twice: its question marks are slashes the second time only. */
  function SlashSecond(w: string): (t: string)
    ensures |t| == |w| && forall k :: 0 <= k < |w| ==> t[k] == if w[k] == '?' then '/' else w[k]
  {
    seq(|w|, k requires 0 <= k < |w| => if w[k] == '?' then '/' else w[k])
  }

  /** A pattern with a question mark between two stars. */
  function TwoStars(a: string, w: string, r: string): (p: string) {
    a + "*" + w + "*" + r
  }

  function OfferedTwice(a: string, w: string, r: string): (t: string) {
    InARow(Lits(a), Lits(w), SlashSecond(w), Lits(r))
  }

  lemma TwoStarsParts(a: string, w: string, r: string)
    requires Plain(r)
    ensures var p, s, e := TwoStars(a, w, r), |a|, |a| + 1 + |w|;
            && |p| == e + 1 + |r| && p[s] == '*' && p[e] == '*' && p[..s] == a && p[s + 1..e] == w && p[e + 1..] == r
            && (r != "" ==> p[e + 1] == r[0]) && forall k :: e < k < |p| ==> !Wild(p[k])
  {
    var p, e := TwoStars(a, w, r), |a| + 1 + |w|;
    assert forall k :: e < k < |p| ==> p[k] == r[k - (e + 1)];
  }

  /** The text agrees with the piece of pattern character by character. */
  predicate StandsFor(x: string, w: string) {
    |x| == |w| && forall m :: 0 <= m < |w| ==> w[m] == '?' || x[m] == w[m]
  }

  lemma LitsStandFor(w: string)
    requires Plain(w)
    ensures StandsFor(Lits(w), w) && |Lits(w)| == |w| && Plain(Lits(w))
  {
    LitsOfPlain(w);
  }

  lemma SecondStandsFor(w: string)
    requires Plain(w)
    ensures StandsFor(SlashSecond(w), w) && Plain(SlashSecond(w))
  {
  }

  /** Where a text lies that stands for this piece of the pattern. */
  lemma AgreesWhere(p: string, t: string, i: nat, j: nat, w: string, x: string)
    requires i + |w| <= |p| && p[i..i + |w|] == w && StandsFor(x, w) && LiesAt(x, t, j)
    ensures Agree(p, t, i, j, |w|)
  {
    forall m | i <= m < i + |w| ensures p[m] == '?' || t[j + (m - i)] == p[m] {
      assert p[m] == p[i..i + |w|][m - i] && t[j + (m - i)] == x[m - i];
    }
  }

  lemma OfferedTwiceParts(a: string, w: string, r: string)
    requires Plain(w) && Plain(r)
    ensures var t, k := OfferedTwice(a, w, r), |Lits(a)|;
            && |t| == k + 2 * |w| + |r| && Plain(t) && LiesAt(Lits(a), t, 0)
            && LiesAt(Lits(w), t, k) && LiesAt(SlashSecond(w), t, k + |w|) && LiesAt(Lits(r), t, k + 2 * |w|)
  {
    hide Lits, LiesAt, Plain, StandsFor, InARow, SlashSecond;
    LitsStandFor(w);
    LitsStandFor(r);
    LitsArePlain(a);
    SecondStandsFor(w);
    FourPartsAt(Lits(a), Lits(w), SlashSecond(w), Lits(r), |w|);
  }

  lemma FourPartsAt(a: string, b: string, c: string, d: string, n: nat)
    requires Plain(a) && Plain(b) && Plain(c) && Plain(d) && |b| == n && |c| == n
    ensures var t := InARow(a, b, c, d);
            && |t| == |a| + 2 * n + |d| && Plain(t) && LiesAt(a, t, 0)
            && LiesAt(b, t, |a|) && LiesAt(c, t, |a| + n) && LiesAt(d, t, |a| + 2 * n)
  {
    hide LiesAt, Plain, InARow;
    FourParts(a, b, c, d);
  }

  /** Pattern and text agree at both places, and behind them. */
  lemma OffersAgree(p: string, t: string, s: nat, k: nat, w: string, r: string, x: string, y: string, z: string)
    requires s + 2 + |w| + |r| == |p| && p[s + 1..s + 1 + |w|] == w && p[s + 2 + |w|..] == r
    requires StandsFor(x, w) && StandsFor(y, w) && StandsFor(z, r)
    requires LiesAt(x, t, k) && LiesAt(y, t, k + |w|) && LiesAt(z, t, k + 2 * |w|)
    ensures Agree(p, t, s + 1, k, |w|) && Agree(p, t, s + 1, k + |w|, |w|)
    ensures Agree(p, t, s + 2 + |w|, k + 2 * |w|, |r|)
  {
    hide Agree, LiesAt, StandsFor;
    AgreesWhere(p, t, s + 1, k, w, x);
    AgreesWhere(p, t, s + 1, k + |w|, w, y);
    assert p[s + 2 + |w|..s + 2 + |w| + |r|] == r;
    AgreesWhere(p, t, s + 2 + |w|, k + 2 * |w|, r, z);
  }

  lemma SlashesWhere(w: string, t: string, k: nat)
    requires Plain(w) && '/' !in w && '?' in w && LiesAt(Lits(w), t, k) && LiesAt(SlashSecond(w), t, k + |w|)
    ensures NoSlash(t, k, k + |w|) && !NoSlash(t, k + |w|, k + 2 * |w|)
  {
    LitsOfPlain(w);
    forall m | k <= m < k + |w| ensures t[m] != '/' {
      assert t[k + (m - k)] == Lits(w)[m - k];
    }
    var m :| 0 <= m < |w| && w[m] == '?';
    assert t[k + |w| + m] == SlashSecond(w)[m];
  }

  /** If the second star stops, the text is refused although the first star could take what it takes. */
  lemma NeverRightWithAnyBetweenStars(a: string, w: string, r: string, past: char)
    requires Plain(w) && Plain(r) && '?' in w && '/' !in w
    requires r == "" || (r[0] != '/' && r[0] != '?')
    ensures !Right(TwoStars(a, w, r), past)
  {
    hide TwoStars, OfferedTwice, Lits, Right, SlashMatches, Reaches, Agree, LiesAt, Plain, NoSlash, Apart, StandsFor;
    var p, t, s, e, k := TwoStars(a, w, r), OfferedTwice(a, w, r), |a|, |a| + 1 + |w|, |Lits(a)|;
    TwoStarsParts(a, w, r);
    OfferedTwiceParts(a, w, r);
    LitsStandFor(w);
    LitsStandFor(r);
    SecondStandsFor(w);
    OffersAgree(p, t, s, k, w, r, Lits(w), SlashSecond(w), Lits(r));
    SlashesWhere(w, t, k);
    PlainIsApart(p, t);
    OfferedTwiceIsRefused(p, t, past, s, e, k, |r|);
    OfferedTwiceMatches(p, t, s, e, k, |r|);
    NotRight(p, past, t, false);
  }

  lemma OfferedTwiceIsRefused(p: string, t: string, past: char, s: nat, e: nat, k: nat, l: nat)
    requires s < e < |p| == e + 1 + l && p[s] == '*' && p[e] == '*' && forall m :: e < m < |p| ==> !Wild(p[m])
    requires l > 0 ==> p[e + 1] != '/' && p[e + 1] != '?'
    requires Plain(t) && LiesAt(Lits(p[..s]), t, 0) && k == |Lits(p[..s])| && |t| == k + 2 * (e - s - 1) + l
    requires Agree(p, t, s + 1, k, e - s - 1) && !NoSlash(t, k + (e - s - 1), k + 2 * (e - s - 1))
    ensures Answers(p, t, past, false)
  {
    hide Reaches, Lits;
    PlainIsApart(p, t);
    var n := e - s - 1;
    FirstTrial(p, t, past, s);
    InStep(p, t, past, s + 1, k, s, k + 1, n);
    ReachesOn(p, t, past, Trial(s, k), n);
    var c := Cursor(e, k + n, s, k + 1);
    OneTurn(p, t, past, c);
    ReachesOn(p, t, past, c, 1);
    SecondStarRefuses(p, t, past, e, k + n, l, n);
  }

  lemma OfferedTwiceMatches(p: string, t: string, s: nat, e: nat, k: nat, l: nat)
    requires s < e < |p| == e + 1 + l && p[s] == '*' && p[e] == '*'
    requires LiesAt(Lits(p[..s]), t, 0) && k == |Lits(p[..s])| && |t| == k + 2 * (e - s - 1) + l
    requires Agree(p, t, s + 1, k + (e - s - 1), e - s - 1) && NoSlash(t, k, k + (e - s - 1))
    requires Agree(p, t, e + 1, k + 2 * (e - s - 1), l)
    ensures SlashMatches(p, t, 0, 0)
  {
    hide SlashMatches, Lits;
    var n := e - s - 1;
    SlashMatchesHere(p, t, |p|, |t|);
    AgreeingInFront(p, t, e + 1, k + 2 * n, l);
    SlashMatchesHere(p, t, e, k + 2 * n);
    AgreeingInFront(p, t, s + 1, k + n, n);
    WildTakes(p, t, s, k, k + n);
    assert p[0..0 + s] == p[..s];
    LitsInFront(p, t, 0, 0, s);
  }

  /** The last star would have to take `n` characters, one of them a slash. */
  lemma SecondStarRefuses(p: string, t: string, past: char, e: nat, j: nat, l: nat, n: nat)
    requires Apart(p, t) && |p| == e + 1 + l && p[e] == '*' && |t| == j + n + l && !NoSlash(t, j, j + n)
    requires forall k :: e < k < |p| ==> !Wild(p[k])
    requires l > 0 ==> p[e + 1] != '/' && p[e + 1] != '?'
    requires Reaches(p, t, past, Trial(e, j))
    ensures Answers(p, t, past, false)
  {
    var m, b := Decides(p, t, past, e + 1, j, e, j + 1);
    ReachesOn(p, t, past, Trial(e, j), m);
    if b {
      OnlySo(p, t, e, j, n, l);
      SlashMatchesHere(p, t, e, j);
      TrueMeansSlashMatch(p, t, past, e + 1, j, e, j + 1, e, m);
    } else {
      ReachedAnswer(p, t, past, false);
    }
  }

  /** A star in front of `l` plain characters takes all the others. */
  lemma OnlySo(p: string, t: string, e: nat, j: nat, n: nat, l: nat)
    requires |p| == e + 1 + l && p[e] == '*' && |t| == j + n + l && !NoSlash(t, j, j + n)
    requires forall k :: e < k < |p| ==> !Wild(p[k])
    ensures !SlashMatches(p, t, e, j) && !SlashMatches(p, t, e + 1, j)
  {
    var next := e + 1;
    if SlashMatches(p, t, e, j) {
      var k :| j <= k <= |t| && (p[e] == '#' || NoSlash(t, j, k)) && SlashMatches(p, t, next, k);
      RestIsAsLong(p, t, next, k);
    }
    assert n == 0 ==> NoSlash(t, j, j);
    if SlashMatches(p, t, next, j) {
      RestIsAsLong(p, t, next, j);
    }
  }

  /** Behind the last wildcard pattern and text are equally long. */
  lemma RestIsAsLong(p: string, t: string, i: nat, j: nat)
    requires i <= |p| && j <= |t| && SlashMatches(p, t, i, j) && forall k :: i <= k < |p| ==> !Wild(p[k])
    ensures |p| - i == |t| - j
  {
    SlashAcross(p, t, i, j, |p| - i);
  }

  // ------------------------------------------------- one star, question marks anywhere

  function StarBefore(a: string, w: string): (p: string) {
    a + "*" + w
  }

  /** Some text is accepted although no match of it keeps the stars off its slashes. */
  ghost predicate CanCross(p: string, past: char) {
    exists t :: Apart(p, t) && Answers(p, t, past, true) && !SlashMatches(p, t, 0, 0)
  }

  /** The question marks in front. */
  function AnyFront(w: string): (m: nat)
    ensures m <= |w| && (forall k :: 0 <= k < m ==> w[k] == '?') && (m < |w| ==> w[m] != '?')
  {
    if w != "" && w[0] == '?' then 1 + AnyFront(w[1..]) else 0
  }

  lemma StarBeforeParts(a: string, w: string)
    requires Plain(a) && Plain(w)
    ensures var p, s := StarBefore(a, w), |a|;
            && |p| == s + 1 + |w| && p[s] == '*' && p[..s] == a && p[s + 1..] == w
            && forall k :: 0 <= k < |p| && k != s ==> !Wild(p[k])
  {
  }

  /** How such a pattern matches: the star takes what is left over. */
  lemma StarBeforeMatches(a: string, w: string, t: string)
    requires Plain(a) && Plain(w)
    ensures var p, s := StarBefore(a, w), |a|;
            SlashMatches(p, t, 0, 0) <==>
              s + |w| <= |t| && Agree(p, t, 0, 0, s) && NoSlash(t, s, |t| - |w|)
              && Agree(p, t, s + 1, |t| - |w|, |w|)
  {
    StarBeforeParts(a, w);
    hide StarBefore;
    OneStarMatches(StarBefore(a, w), t, |a|, |w|);
  }

  lemma OneStarMatches(p: string, t: string, s: nat, n: nat)
    requires |p| == s + 1 + n && p[s] == '*' && forall k :: 0 <= k < |p| && k != s ==> !Wild(p[k])
    ensures SlashMatches(p, t, 0, 0) <==>
              s + n <= |t| && Agree(p, t, 0, 0, s) && NoSlash(t, s, |t| - n) && Agree(p, t, s + 1, |t| - n, n)
  {
    hide Agree;
    if SlashMatches(p, t, 0, 0) {
      SlashAcross(p, t, 0, 0, s);
      var k :| s <= k <= |t| && (p[s] == '#' || NoSlash(t, s, k)) && SlashMatches(p, t, s + 1, k);
      SlashAcross(p, t, s + 1, k, n);
    }
    if s + n <= |t| && Agree(p, t, 0, 0, s) && NoSlash(t, s, |t| - n) && Agree(p, t, s + 1, |t| - n, n) {
      AgreeingInFront(p, t, s + 1, |t| - n, n);
      WildTakes(p, t, s, s, |t| - n);
      AgreeingInFront(p, t, 0, 0, s);
    }
  }

  /** A letter that is not the first literal of `w`. */
  function Other(w: string): (y: char)
    ensures y == 'x' || y == 'y'
  {
    if AnyFront(w) < |w| && w[AnyFront(w)] == 'x' then 'y' else 'x'
  }

  /**
   * A text on which the star has to take a slash. Behind the slash stand letters that what follows the
   * star cannot match, or, if that starts with a question mark, match one place too late.
   */
  function CrossingText(a: string, w: string): (t: string)
    requires w != ""
  {
    if w[0] == '?' then InARow(Lits(a), "/", Repeat(Other(w), AnyFront(w)), Lits(w[AnyFront(w)..]))
    else SlashAndLetters(Lits(a), Repeat(Other(w[1..]), AnyFront(w[1..]) + 1), Lits(w))
  }

  function SlashAndLetters(x: string, y: string, z: string): (t: string) {
    x + "/" + y + z
  }

  /** The question marks agree one place too early up to a letter, and everything at the next. */
  lemma CrossingAtAny(a: string, w: string)
    requires Plain(a) && Plain(w) && w != "" && w[0] == '?'
    ensures var p, t, s, m := StarBefore(a, w), CrossingText(a, w), |a|, AnyFront(w);
            && Plain(t) && |t| == s + 1 + |w| && LiesAt(Lits(a), t, 0) && |Lits(a)| == s && t[s] == '/'
            && Agree(p, t, s + 1, s, m) && t[s + m] == Other(w) && Agree(p, t, s + 1, s + 1, |w|)
  {
    var p, t, s, m := StarBefore(a, w), CrossingText(a, w), |a|, AnyFront(w);
    StarBeforeParts(a, w);
    LitsStandFor(a);
    assert Plain(w[m..]);
    LitsStandFor(w[m..]);
    assert w[..m] == Repeat('?', m);
    hide StarBefore, Lits;
    RepeatIsPlain(Other(w), m);
    LettersForAny(p, w, m, Lits(a), Repeat(Other(w), m), Lits(w[m..]));
  }

  lemma AnyStandsFor(x: string, w: string)
    requires w == Repeat('?', |x|)
    ensures StandsFor(x, w)
  {
  }

  /** Letters in place of the question marks in front. */
  lemma LettersForAny(p: string, w: string, m: nat, x: string, ys: string, z: string)
    requires 0 < m == |ys| <= |w| && w[..m] == Repeat('?', m) && |p| == |x| + 1 + |w| && p[|x| + 1..] == w
    requires StandsFor(z, w[m..]) && Plain(x) && Plain(ys) && Plain(z)
    ensures var s, t := |x|, InARow(x, "/", ys, z);
            && Plain(t) && LiesAt(x, t, 0) && t[s] == '/' && t[s + m] == ys[m - 1]
            && Agree(p, t, s + 1, s, m) && Agree(p, t, s + 1, s + 1, |w|)
  {
    hide Plain, LiesAt, Agree, StandsFor, InARow;
    var s, t := |x|, InARow(x, "/", ys, z);
    SlashIsPlain();
    FourParts(x, "/", ys, z);
    StandsThere("/", t, s, 0);
    StandsThere(ys, t, s + 1, m - 1);
    AnyStandsFor(ys, w[..m]);
    FrontAndRest(p, s + 1, w, m);
    RestStandsFor(z, w, m);
    AnyAgrees(p, t, s + 1, s, w[..m]);
    AgreesWhere(p, t, s + 1, s + 1, w[..m], ys);
    AgreesWhere(p, t, s + 1 + m, s + 1 + m, w[m..], z);
    AgreeTogether(p, t, s + 1, s + 1, m, |w| - m);
  }

  lemma SlashIsPlain()
    ensures Plain("/")
  {
  }

  lemma RestStandsFor(z: string, w: string, m: nat)
    requires m <= |w| && StandsFor(z, w[m..])
    ensures |z| == |w| - m
  {
  }

  lemma StandsThere(x: string, t: string, ofs: nat, i: nat)
    requires LiesAt(x, t, ofs) && i < |x|
    ensures ofs + i < |t| && t[ofs + i] == x[i]
  {
  }

  lemma FrontAndRest(p: string, i: nat, w: string, m: nat)
    requires m <= |w| && |p| == i + |w| && p[i..] == w
    ensures p[i..i + |w[..m]|] == w[..m] && p[i + m..i + m + |w[m..]|] == w[m..]
  {
  }

  lemma AnyAgrees(p: string, t: string, i: nat, j: nat, w: string)
    requires i + |w| <= |p| && p[i..i + |w|] == w == Repeat('?', |w|) && j + |w| <= |t|
    ensures Agree(p, t, i, j, |w|)
  {
    forall k | i <= k < i + |w| ensures p[k] == '?' {
      assert p[k] == p[i..i + |w|][k - i];
    }
  }

  lemma AgreeTogether(p: string, t: string, i: nat, j: nat, m: nat, n: nat)
    requires Agree(p, t, i, j, m) && Agree(p, t, i + m, j + m, n)
    ensures Agree(p, t, i, j, m + n)
  {
  }

  lemma CrossingAtSlash(a: string, w: string)
    requires Plain(a) && Plain(w) && w != "" && w[0] == '/'
    ensures var t, s, m := CrossingText(a, w), |a|, AnyFront(w[1..]);
            && Plain(t) && |t| == s + 2 + m + |w| && LiesAt(Lits(a), t, 0) && |Lits(a)| == s && t[s] == '/'
            && (forall k :: s < k < s + 2 + m ==> t[k] == Other(w[1..]))
            && LiesAt(Lits(w), t, s + 2 + m) && |Lits(w)| == |w|
  {
    LitsOfPlain(a);
    LitsOfPlain(w);
    LitsArePlain(a);
    LitsArePlain(w);
    hide Lits, SlashAndLetters, AnyFront, Other, Plain, LiesAt;
    LettersBehind(Lits(a), Repeat(Other(w[1..]), AnyFront(w[1..]) + 1), Lits(w), Other(w[1..]));
  }

  lemma LitsArePlain(p: string)
    ensures Plain(Lits(p))
  {
  }

  lemma LettersBehind(x: string, y: string, z: string, c: char)
    requires Plain(x) && Plain(z) && (c == 'x' || c == 'y') && forall k :: 0 <= k < |y| ==> y[k] == c
    ensures var t := SlashAndLetters(x, y, z);
            && |t| == |x| + 1 + |y| + |z| && Plain(t) && LiesAt(x, t, 0) && t[|x|] == '/' && LiesAt(z, t, |x| + 1 + |y|)
            && forall k :: |x| < k < |x| + 1 + |y| ==> t[k] == c
  {
  }

  /** What stands behind the slash: question marks, and then a literal or nothing. */
  lemma BehindTheSlash(p: string, s: nat, w: string)
    requires w != "" && |p| == s + 1 + |w| && p[s + 1..] == w
    ensures forall k :: s + 2 <= k < s + 2 + AnyFront(w[1..]) ==> p[k] == '?'
    ensures var m := AnyFront(w[1..]);
            s + 2 + m < |p| ==> p[s + 2 + m] != '?' && p[s + 2 + m] != Other(w[1..])
  {
    var m := AnyFront(w[1..]);
    forall k | s + 2 <= k < s + 2 + m ensures p[k] == '?' {
      assert p[k] == p[s + 1..][k - (s + 1)] == w[1..][k - (s + 2)];
    }
    assert s + 2 + m < |p| ==> p[s + 2 + m] == p[s + 1..][1 + m];
  }

  /** A trial at which the plain rest of the pattern agrees with the rest of the text. */
  lemma AgreeingTrial(p: string, t: string, past: char, s: nat, k: nat)
    requires s < |p| && Agree(p, t, s + 1, k, |p| - s - 1) && k + |p| - s - 1 == |t|
    requires Reaches(p, t, past, Trial(s, k))
    ensures Answers(p, t, past, true)
  {
    var n := |p| - s - 1;
    InStep(p, t, past, s + 1, k, s, k + 1, n);
    ReachesOn(p, t, past, Trial(s, k), n);
    var c := Cursor(|p|, |t|, s, k + 1);
    OneTurn(p, t, past, c);
    ReachesOn(p, t, past, c, 1);
  }

  /** Letters that differ from the slash behind the star are taken one by one. */
  lemma {:induction false} TakesTheLetters(p: string, t: string, past: char, s: nat, k: nat, n: nat)
    requires s + 1 < |p| && p[s] == '*' && p[s + 1] == '/' && Plain(t) && k + n <= |t|
    requires forall m :: k <= m < k + n ==> t[m] != '/'
    requires Reaches(p, t, past, Trial(s, k))
    ensures Reaches(p, t, past, Trial(s, k + n))
    decreases n
  {
    hide Reaches;
    if n > 0 {
      NextTrial(p, t, past, s, k, 0);
      TakesTheLetters(p, t, past, s, k + 1, n - 1);
    }
  }

  lemma CrossingAtAnyIsAccepted(a: string, w: string, past: char)
    requires Plain(a) && Plain(w) && w != "" && w[0] == '?'
    ensures Answers(StarBefore(a, w), CrossingText(a, w), past, true)
  {
    hide StarBefore, CrossingText, Reaches, Lits;
    var p, t, s, m := StarBefore(a, w), CrossingText(a, w), |a|, AnyFront(w);
    StarBeforeParts(a, w);
    CrossingAtAny(a, w);
    FirstTrial(p, t, past, s);
    NextTrial(p, t, past, s, s, m);
    AgreeingTrial(p, t, past, s, s + 1);
  }

  lemma CrossingAtSlashIsAccepted(a: string, w: string, past: char)
    requires Plain(a) && Plain(w) && w != "" && w[0] == '/'
    ensures Answers(StarBefore(a, w), CrossingText(a, w), past, true)
  {
    hide StarBefore, CrossingText, Reaches, Lits;
    var p, t, s, m := StarBefore(a, w), CrossingText(a, w), |a|, AnyFront(w[1..]);
    StarBeforeParts(a, w);
    CrossingAtSlash(a, w);
    BehindTheSlash(p, s, w);
    FirstTrial(p, t, past, s);
    NextTrial(p, t, past, s, s, m + 1);
    TakesTheLetters(p, t, past, s, s + 1, m + 1);
    LastTrial(p, t, past, s, s + 2 + m);
  }

  /** In front of a slash or a question mark the star crosses. */
  lemma CrossingTextCrosses(a: string, w: string, past: char)
    requires Plain(a) && Plain(w) && w != "" && (w[0] == '/' || w[0] == '?')
    ensures var p, t := StarBefore(a, w), CrossingText(a, w);
            Apart(p, t) && Answers(p, t, past, true) && !SlashMatches(p, t, 0, 0)
  {
    hide StarBefore, CrossingText, SlashMatches, Lits;
    StarBeforeMatches(a, w, CrossingText(a, w));
    if w[0] == '?' {
      CrossingAtAny(a, w);
      CrossingAtAnyIsAccepted(a, w, past);
    } else {
      CrossingAtSlash(a, w);
      CrossingAtSlashIsAccepted(a, w, past);
    }
    PlainIsApart(StarBefore(a, w), CrossingText(a, w));
  }

  /** One text character can stand for the pattern character at `m` and for the one `shift` before. */
  predicate Compatible(w: string, m: nat, shift: nat)
    requires shift <= m < |w|
  {
    w[m] == w[m - shift] || w[m] == '?' || w[m - shift] == '?'
  }

  /**
   * Written over itself, `shift` characters on, the part behind the star agrees with itself up to a
   * slash that the first copy does not match: there the loop gives up although the second copy fits.
   */
  predicate OverlapsAt(w: string, shift: nat, d: nat) {
    && 1 <= shift <= d <= |w|
    && (d < |w| ==> w[d] != '/' && w[d] != '?') && (w[d - shift] == '/' || w[d - shift] == '?')
    && (forall m :: 0 <= m < shift ==> w[m] != '/')
    && (forall m :: shift <= m < d ==> Compatible(w, m, shift))
  }

  predicate Overlaps(w: string) {
    exists shift, d :: 0 <= shift <= d <= |w| && OverlapsAt(w, shift, d)
  }

  function CopiedAt(w: string, shift: nat, d: nat, k: nat): (c: char)
    requires shift <= d <= |w| && k < shift + |w|
  {
    if k == d then '/'
    else if k < shift then Plainly(w[k])
    else Plainly(if k < d && w[k] != '?' then w[k] else w[k - shift])
  }

  /** Both copies, a slash where they part. */
  function BothCopies(w: string, shift: nat, d: nat): (u: string)
    requires shift <= d <= |w|
    ensures |u| == shift + |w| && forall k :: 0 <= k < |u| ==> u[k] == CopiedAt(w, shift, d, k)
  {
    seq(shift + |w|, k requires 0 <= k < shift + |w| => CopiedAt(w, shift, d, k))
  }

  lemma CopiesFit(w: string, shift: nat, d: nat)
    requires Plain(w) && OverlapsAt(w, shift, d)
    ensures var u := BothCopies(w, shift, d);
            && Plain(u) && u[d] == '/'
            && StandsFor(u[..d], w[..d]) && StandsFor(u[shift..], w)
            && (forall m :: 0 <= m < shift ==> u[m] != '/')
  {
    var u := BothCopies(w, shift, d);
    forall m | 0 <= m < |w| ensures w[m] == '?' || u[shift..][m] == w[m] {
      assert u[shift..][m] == u[shift + m] == CopiedAt(w, shift, d, shift + m);
      assert shift + m < d ==> Compatible(w, shift + m, shift);
    }
    forall k | 0 <= k < |u| ensures !Wild(u[k]) {
      assert u[k] == CopiedAt(w, shift, d, k);
    }
  }

  lemma CopiesLie(x: string, u: string, shift: nat, d: nat)
    requires shift <= |u| && d <= |u|
    ensures var t := x + u;
            LiesAt(x, t, 0) && LiesAt(u, t, |x|) && LiesAt(u[..d], t, |x|) && LiesAt(u[shift..], t, |x| + shift)
  {
  }

  lemma BothCopiesParts(a: string, w: string, shift: nat, d: nat)
    requires Plain(a) && Plain(w) && OverlapsAt(w, shift, d)
    ensures var p, t, s := StarBefore(a, w), Lits(a) + BothCopies(w, shift, d), |a|;
            && Plain(t) && LiesAt(Lits(a), t, 0) && |Lits(a)| == s && |t| == s + shift + |w| && t[s + d] == '/'
            && Agree(p, t, 0, 0, s) && Agree(p, t, s + 1, s, d) && Agree(p, t, s + 1, s + shift, |w|)
            && NoSlash(t, s, s + shift)
  {
    hide StarBefore, BothCopies, LiesAt, Agree, NoSlash, StandsFor;
    var u := BothCopies(w, shift, d);
    StarBeforeParts(a, w);
    LitsStandFor(a);
    CopiesFit(w, shift, d);
    hide Lits, Plainly;
    CopiesLie(Lits(a), u, shift, d);
    assert Plain(Lits(a) + u);
    CopiesAgree(a, w, StarBefore(a, w), Lits(a), u, shift, d);
  }

  lemma CopiesAgree(a: string, w: string, p: string, x: string, u: string, shift: nat, d: nat)
    requires |p| == |a| + 1 + |w| && p[..|a|] == a && p[|a| + 1..] == w
    requires StandsFor(x, a) && |x| == |a|
    requires |u| == shift + |w| && d <= |w| && shift <= d && StandsFor(u[..d], w[..d]) && StandsFor(u[shift..], w)
    requires forall m :: 0 <= m < shift ==> u[m] != '/'
    requires LiesAt(x, x + u, 0) && LiesAt(u[..d], x + u, |a|) && LiesAt(u[shift..], x + u, |a| + shift)
    ensures Agree(p, x + u, 0, 0, |a|) && Agree(p, x + u, |a| + 1, |a|, d)
    ensures Agree(p, x + u, |a| + 1, |a| + shift, |w|) && NoSlash(x + u, |a|, |a| + shift)
  {
    hide LiesAt, StandsFor, Agree;
    var s := |a|;
    assert p[0..0 + |a|] == a;
    AgreesWhere(p, x + u, 0, 0, a, x);
    assert p[s + 1..s + 1 + d] == w[..d];
    AgreesWhere(p, x + u, s + 1, s, w[..d], u[..d]);
    assert p[s + 1..s + 1 + |w|] == w;
    AgreesWhere(p, x + u, s + 1, s + shift, w, u[shift..]);
  }

  /** A text that the pattern matches and the loop refuses. */
  lemma OverlapLosesAMatch(a: string, w: string, past: char)
    requires Plain(a) && Plain(w) && Overlaps(w)
    ensures !Right(StarBefore(a, w), past)
  {
    hide StarBefore, BothCopies, SlashMatches, Lits, Right, Reaches, Plain, Agree, NoSlash, Apart, LiesAt;
    var shift, d :| 0 <= shift <= d <= |w| && OverlapsAt(w, shift, d);
    var p, t, s := StarBefore(a, w), Lits(a) + BothCopies(w, shift, d), |a|;
    StarBeforeParts(a, w);
    BothCopiesParts(a, w, shift, d);
    PlainIsApart(p, t);
    FirstTrial(p, t, past, s);
    assert s + 1 + d < |p| ==> p[s + 1 + d] == p[s + 1..][d] && !Wild(p[s + 1 + d]);
    NoNextTrial(p, t, past, s, s, d);
    StarBeforeMatches(a, w, t);
    NotRight(p, past, t, false);
  }

  /** How far pattern and text agree. */
  lemma {:induction false} AgreeingLength(p: string, t: string, i: nat, j: nat) returns (n: nat)
    requires i <= |p| && j <= |t| && |p| - i < |t| - j
    ensures Agree(p, t, i, j, n)
    ensures i + n < |p| ==> p[i + n] != '?' && t[j + n] != p[i + n]
    decreases |p| - i
  {
    if i < |p| && (p[i] == '?' || t[j] == p[i]) {
      n := AgreeingLength(p, t, i + 1, j + 1);
      n := n + 1;
    } else {
      n := 0;
    }
  }

  lemma StarIsApart(p: string, t: string, s: nat)
    requires Apart(p, t) && s < |p| && p[s] == '*'
    ensures '*' !in t
  {
  }

  /** A mismatch at a slash in front of a match is an overlap. */
  lemma OverlapThere(p: string, t: string, s: nat, k: nat, k': nat, d: nat, w: string)
    requires |p| == s + 1 + |w| && p[s + 1..] == w
    requires k < k' && k' + |w| == |t| && k + d < |t| && t[k + d] == '/' && NoSlash(t, k, k')
    requires Agree(p, t, s + 1, k, d) && Agree(p, t, s + 1, k', |w|)
    requires d < |w| ==> p[s + 1 + d] != '?' && t[k + d] != p[s + 1 + d]
    ensures Overlaps(w)
  {
    var shift := k' - k;
    assert d >= shift;
    forall m | 0 <= m < d ensures w[m] == '?' || t[k + m] == w[m] {
      assert p[s + 1 + m] == p[s + 1..][m] == w[m] && t[k + (s + 1 + m - (s + 1))] == t[k + m];
    }
    forall m | 0 <= m < |w| ensures w[m] == '?' || t[k' + m] == w[m] {
      assert p[s + 1 + m] == p[s + 1..][m] == w[m] && t[k' + (s + 1 + m - (s + 1))] == t[k' + m];
    }
    forall m | shift <= m < d ensures Compatible(w, m, shift) {
      assert t[k' + (m - shift)] == t[k + m];
    }
    forall m | 0 <= m < shift ensures w[m] != '/' {
      assert k <= k + m < k';
    }
    assert t[k' + (d - shift)] == t[k + d];
    assert d < |w| ==> p[s + 1 + d] == p[s + 1..][d];
    assert OverlapsAt(w, shift, d);
  }

  /** Without an overlap the loop goes on to the place where the rest of the pattern fits. */
  lemma {:induction false} ComesToTheMatch(a: string, w: string, t: string, past: char, k: nat)
    requires Plain(a) && Plain(w) && !Overlaps(w) && Apart(StarBefore(a, w), t) && |a| <= k && k + |w| <= |t|
    requires NoSlash(t, |a|, |t| - |w|) && Agree(StarBefore(a, w), t, |a| + 1, |t| - |w|, |w|)
    requires Reaches(StarBefore(a, w), t, past, Trial(|a|, k))
    ensures Answers(StarBefore(a, w), t, past, true)
    decreases |t| - k
  {
    hide StarBefore, Reaches;
    var p, s := StarBefore(a, w), |a|;
    StarBeforeParts(a, w);
    if k + |w| == |t| {
      AgreeingTrial(p, t, past, s, k);
    } else {
      var d := AgreeingLength(p, t, s + 1, k);
      if t[k + d] == '/' {
        OverlapThere(p, t, s, k, |t| - |w|, d, w);
      }
      StarIsApart(p, t, s);
      NextTrial(p, t, past, s, k, d);
      ComesToTheMatch(a, w, t, past, k + 1);
    }
  }

  /**
   * A pattern with one star is decided rightly, on every text without a star, exactly when the star is
   * followed neither by a slash nor by a question mark, and what follows it does not overlap itself.
   */
  lemma OneStarIsRightExactly(a: string, w: string, past: char)
    requires Plain(a) && Plain(w)
    ensures Right(StarBefore(a, w), past) <==>
              (w != "" ==> w[0] != '/' && w[0] != '?') && !Overlaps(w)
  {
    hide StarBefore, SlashMatches, Right, CrossingText;
    var p := StarBefore(a, w);
    if w != "" && (w[0] == '/' || w[0] == '?') {
      CrossingTextCrosses(a, w, past);
      NotRight(p, past, CrossingText(a, w), true);
    } else if Overlaps(w) {
      OverlapLosesAMatch(a, w, past);
    } else {
      forall t | Apart(p, t) ensures Answers(p, t, past, SlashMatches(p, t, 0, 0)) {
        OneStarDecides(a, w, t, past);
      }
      AllRight(p, past);
    }
  }

  lemma AllRight(p: string, past: char)
    requires forall t :: Apart(p, t) ==> Answers(p, t, past, SlashMatches(p, t, 0, 0))
    ensures Right(p, past)
  {
  }

  lemma OneStarDecides(a: string, w: string, t: string, past: char)
    requires Plain(a) && Plain(w) && !Overlaps(w) && (w != "" ==> w[0] != '/' && w[0] != '?')
    requires Apart(StarBefore(a, w), t)
    ensures Answers(StarBefore(a, w), t, past, SlashMatches(StarBefore(a, w), t, 0, 0))
  {
    hide StarBefore, SlashMatches, Overlaps;
    var p, s := StarBefore(a, w), |a|;
    StarBeforeParts(a, w);
    StarBeforeMatches(a, w, t);
    if SlashMatches(p, t, 0, 0) {
      FirstTrialAgreeing(p, t, past, s);
      ComesToTheMatch(a, w, t, past, s);
    } else {
      OneStarStops(a, w);
      var n, b := Decides(p, t, past, 0, 0, 0, 0);
      assert Answers(p, t, past, b);
      if b { StarsStopAtSlashes(p, t, past); }
    }
  }

  lemma OneStarStops(a: string, w: string)
    requires Plain(a) && Plain(w) && (w != "" ==> w[0] != '/' && w[0] != '?')
    ensures Stops(StarBefore(a, w))
  {
    StarBeforeParts(a, w);
  }

  lemma FirstTrialAgreeing(p: string, t: string, past: char, s: nat)
    requires s < |p| && p[s] == '*' && Apart(p, t) && Agree(p, t, 0, 0, s)
    ensures Reaches(p, t, past, Trial(s, s))
  {
    InStep(p, t, past, 0, 0, 0, 0, s);
    var c := Cursor(s, s, 0, 0);
    assert Reaches(p, t, past, c);
    OneTurn(p, t, past, c);
    ReachesOn(p, t, past, c, 1);
  }

  /** A single star can take a slash exactly when a slash or a question mark follows it. */
  lemma StarCrossesASlash(a: string, c: char, b: string, past: char)
    requires Plain(a) && Plain(b) && !Wild(c)
    ensures CanCross(StarBefore(a, [c] + b), past) <==> c == '/' || c == '?'
  {
    hide StarBefore, CrossingText, SlashMatches, Answers;
    var w := [c] + b;
    if c == '/' || c == '?' {
      CrossingTextCrosses(a, w, past);
    } else {
      OneStarStops(a, w);
      var p := StarBefore(a, w);
      forall t | Apart(p, t) && Answers(p, t, past, true) ensures SlashMatches(p, t, 0, 0) {
        StarsStopAtSlashes(p, t, past);
      }
    }
  }

  lemma TurnFirst(p: string, t: string, past: char, c: Cursor, c': Cursor, n: nat)
    requires n > 0 && Turn(p, t, past, c) == c'
    ensures Turns(p, t, past, c, n) == Turns(p, t, past, c', n - 1)
  {
  }

  /** A text without a wildcard that is matched and refused: what stands behind the hash is found too early. */
  lemma LostBehindHash(past: char)
    ensures Answers("#/*x", "a/b/cx", past, false) && SlashMatches("#/*x", "a/b/cx", 0, 0)
    ensures Apart("#/*x", "a/b/cx") && StarsMeetLiterals("#/*x")
  {
    hide SlashMatches, Answers;
    var p, t := "#/*x", "a/b/cx";
    assert Answers(p, t, past, false) by { RefusedBehindHash(past); }
    SlashMatchesHere(p, t, 4, 6);
    SlashMatchesHere(p, t, 3, 5);
    assert NoSlash(t, 4, 5);
    WildTakes(p, t, 2, 4, 5);
    SlashMatchesHere(p, t, 1, 3);
    WildTakes(p, t, 0, 0, 3);
  }

  lemma RefusedBehindHash(past: char)
    ensures Answers("#/*x", "a/b/cx", past, false)
  {
    hide Turns;
    var p, t := "#/*x", "a/b/cx";
    TurnFirst(p, t, past, START, Cursor(1, 0, 0, 1), 8);
    TurnFirst(p, t, past, Cursor(1, 0, 0, 1), Cursor(0, 1, 0, 1), 7);
    TurnFirst(p, t, past, Cursor(0, 1, 0, 1), Cursor(1, 1, 0, 2), 6);
    TurnFirst(p, t, past, Cursor(1, 1, 0, 2), Cursor(2, 2, 0, 2), 5);
    TurnFirst(p, t, past, Cursor(2, 2, 0, 2), Cursor(3, 2, 2, 3), 4);
    TurnFirst(p, t, past, Cursor(3, 2, 2, 3), Cursor(2, 3, 2, 3), 3);
    TurnFirst(p, t, past, Cursor(2, 3, 2, 3), Cursor(3, 3, 2, 4), 2);
    TurnFirst(p, t, past, Cursor(3, 3, 2, 4), Answer(false), 1);
    AnswersStay(p, t, past, false, 0);
  }

  /** Another: what stands between the stars is found too early. */
  lemma LostBetweenStars(past: char)
    ensures Answers("*a?*b", "axa/b", past, false) && SlashMatches("*a?*b", "axa/b", 0, 0)
    ensures Apart("*a?*b", "axa/b") && StarsMeetLiterals("*a?*b")
  {
    hide SlashMatches, Answers;
    var p, t := "*a?*b", "axa/b";
    assert Answers(p, t, past, false) by { RefusedBetweenStars(past); }
    SlashMatchesHere(p, t, 5, 5);
    SlashMatchesHere(p, t, 4, 4);
    SlashMatchesHere(p, t, 3, 4);
    SlashMatchesHere(p, t, 2, 3);
    SlashMatchesHere(p, t, 1, 2);
    assert NoSlash(t, 0, 2);
    WildTakes(p, t, 0, 0, 2);
  }

  lemma RefusedBetweenStars(past: char)
    ensures Answers("*a?*b", "axa/b", past, false)
  {
    hide Turns;
    var p, t := "*a?*b", "axa/b";
    TurnFirst(p, t, past, START, Cursor(1, 0, 0, 1), 7);
    TurnFirst(p, t, past, Cursor(1, 0, 0, 1), Cursor(2, 1, 0, 1), 6);
    TurnFirst(p, t, past, Cursor(2, 1, 0, 1), Cursor(3, 2, 0, 1), 5);
    TurnFirst(p, t, past, Cursor(3, 2, 0, 1), Cursor(4, 2, 3, 3), 4);
    TurnFirst(p, t, past, Cursor(4, 2, 3, 3), Cursor(3, 3, 3, 3), 3);
    TurnFirst(p, t, past, Cursor(3, 3, 3, 3), Cursor(4, 3, 3, 4), 2);
    TurnFirst(p, t, past, Cursor(4, 3, 3, 4), Answer(false), 1);
    AnswersStay(p, t, past, false, 0);
  }
}
