// The documented meaning of a star in mg_globmatch, any run of characters but
// slashes, and for which patterns the loop decides by it.
module GlobStars {
  import opened Bytes
  import opened Glob

  ghost predicate NoSlash(t: string, j: nat, k: nat) {
    j <= k <= |t| && forall m :: j <= m < k ==> t[m] != '/'
  }

  /** The meaning in which a star takes no slash. */
  ghost predicate SlashMatches(p: string, t: string, i: nat, j: nat)
    requires i <= |p| && j <= |t|
    decreases |p| - i
  {
    if i == |p| then j == |t|
    else if Wild(p[i]) then
      var next := i + 1;
      exists k :: j <= k <= |t| && (p[i] == '#' || NoSlash(t, j, k)) && SlashMatches(p, t, next, k)
    else j < |t| && (p[i] == '?' || p[i] == t[j]) && SlashMatches(p, t, i + 1, j + 1)
  }

  /** The loop decides by this meaning every text that contains none of the pattern's wildcards. */
  ghost predicate Right(p: string, past: char) {
    forall t :: Apart(p, t) ==> Answers(p, t, past, SlashMatches(p, t, 0, 0))
  }

  /** No question mark stands behind a star, and no star behind a hash. */
  ghost predicate Settled(p: string) {
    forall i, j :: 0 <= i < j < |p| ==> !(p[i] == '*' && p[j] == '?') && !(p[i] == '#' && p[j] == '*')
  }

  /**
   * Every star is the last character, or is followed by a wildcard, by a literal other than a slash,
   * or by a single character and then a wildcard.
   */
  ghost predicate Stops(p: string) {
    StopsFrom(p, 0)
  }

  ghost predicate StopsFrom(p: string, from: nat) {
    forall i :: from <= i < |p| - 1 && p[i] == '*' ==>
      Wild(p[i + 1]) || (p[i + 1] != '/' && p[i + 1] != '?') || (i + 2 < |p| && Wild(p[i + 2]))
  }

  /** Every star is the last pattern character, or is followed by a literal other than a slash. */
  ghost predicate StarsMeetLiterals(p: string) {
    forall i :: 0 <= i < |p| - 1 && p[i] == '*' ==> p[i + 1] != '/' && p[i + 1] != '?' && !Wild(p[i + 1])
  }

  /** The wildcard at the backtrack point may take the character in front of it. */
  predicate MayTake(p: string, t: string, ni: nat, nj: nat)
    requires ni < |p| && 0 < nj <= |t|
  {
    p[ni] == '#' || t[nj - 1] != '/'
  }

  ghost predicate CanResumeThere(p: string, t: string, ni: nat, nj: nat) {
    0 < nj <= |t| && ni < |p| && MayTake(p, t, ni, nj) && SlashMatches(p, t, ni, nj)
  }

  lemma SlashMatchesHere(p: string, t: string, i: nat, j: nat)
    requires i <= |p| && j <= |t|
    ensures i == |p| && j == |t| ==> SlashMatches(p, t, i, j)
    ensures i < |p| && j < |t| && (p[i] == '?' || p[i] == t[j]) && SlashMatches(p, t, i + 1, j + 1) ==>
            SlashMatches(p, t, i, j)
    ensures i < |p| && Wild(p[i]) && SlashMatches(p, t, i + 1, j) ==> SlashMatches(p, t, i, j)
    ensures i < |p| && Wild(p[i]) && j < |t| && MayTake(p, t, i, j + 1) && SlashMatches(p, t, i, j + 1) ==>
            SlashMatches(p, t, i, j)
  {
    if i < |p| && Wild(p[i]) {
      var next := i + 1;
      if SlashMatches(p, t, next, j) {
        assert NoSlash(t, j, j);
      }
      if j < |t| && MayTake(p, t, i, j + 1) && SlashMatches(p, t, i, j + 1) {
        var k :| j + 1 <= k <= |t| && (p[i] == '#' || NoSlash(t, j + 1, k)) && SlashMatches(p, t, i + 1, k);
        assert p[i] != '#' ==> NoSlash(t, j, k);
      }
      if j < |t| && p[i] == t[j] && SlashMatches(p, t, next, j + 1) {
        assert NoSlash(t, j, j + 1);
      }
    }
  }

  /** A wildcard takes nothing here, or one character it may take and then goes on. */
  lemma WildGoesOn(p: string, t: string, i: nat, j: nat)
    requires i < |p| && Wild(p[i]) && j <= |t| && SlashMatches(p, t, i, j)
    ensures SlashMatches(p, t, i + 1, j) || CanResumeThere(p, t, i, j + 1)
  {
    var next := i + 1;
    var k :| j <= k <= |t| && (p[i] == '#' || NoSlash(t, j, k)) && SlashMatches(p, t, next, k);
    if k > j {
      assert p[i] != '#' ==> NoSlash(t, j + 1, k);
    }
  }

  /** A wildcard takes everything up to here. */
  lemma WildTakes(p: string, t: string, i: nat, j: nat, k: nat)
    requires i < |p| && Wild(p[i]) && j <= k <= |t| && (p[i] == '#' || NoSlash(t, j, k))
    requires SlashMatches(p, t, i + 1, k)
    ensures SlashMatches(p, t, i, j)
  {
  }

  /** Across characters that are no wildcards pattern and text agree and advance together. */
  lemma {:induction false} SlashAcross(p: string, t: string, i: nat, j: nat, n: nat)
    requires i + n <= |p| && j <= |t| && SlashMatches(p, t, i, j)
    requires forall k :: i <= k < i + n ==> !Wild(p[k])
    ensures j + n <= |t| && SlashMatches(p, t, i + n, j + n) && Agree(p, t, i, j, n)
    decreases n
  {
    if n > 0 {
      SlashAcross(p, t, i + 1, j + 1, n - 1);
    }
  }

  /** Agreeing characters in front of a match. */
  lemma {:induction false} AgreeingInFront(p: string, t: string, i: nat, j: nat, n: nat)
    requires Agree(p, t, i, j, n) && SlashMatches(p, t, i + n, j + n)
    ensures SlashMatches(p, t, i, j)
    decreases n
  {
    hide SlashMatches;
    if n > 0 {
      AgreeingInFront(p, t, i + 1, j + 1, n - 1);
      SlashMatchesHere(p, t, i, j);
    }
  }

  // ------------------------------------------------- what is accepted

  /** What has been compared since the backtrack point was set. */
  predicate Compared(p: string, t: string, i: nat, j: nat, ni: nat, nj: nat) {
    0 < nj <= |t| ==>
      && ni < |p| && Wild(p[ni])
      && (MayTake(p, t, ni, nj)
          || (ni < i && i - ni == j + 2 - nj &&
              (i > ni + 1 ==> i <= |p| && (p[ni + 1] == '?' || t[nj - 1] == p[ni + 1]))))
  }

  /** When the loop goes back, the wildcard may take the character in front of the new start. */
  lemma TakesNoSlash(p: string, t: string, i: nat, j: nat, ni: nat, nj: nat)
    requires StarsMeetLiterals(p) || (StopsFrom(p, ni) && OnTrack(p, t, i, j, ni, nj))
    requires i <= |p| && j <= |t| && 0 < nj <= |t| && Compared(p, t, i, j, ni, nj)
    requires i < |p| ==> !Wild(p[i])
    requires p[ni] == '#' || j == |t| || t[j] != '/'
    ensures MayTake(p, t, ni, nj)
  {
    if i > ni + 1 && !StarsMeetLiterals(p) && p[ni] == '*' {
      assert !Wild(p[ni + 1]);
      assert ni + 2 < |p| ==> !Wild(p[ni + 2]);
    }
  }

  /**
   * A star that stops takes no slash: each character it takes has been the place of a mismatch, or of
   * the literal behind the star.
   */
  lemma {:induction false} TrueMeansSlashMatch(p: string, t: string, past: char, i: nat, j: nat, ni: nat, nj: nat,
      from: nat, n: nat)
    requires StarsMeetLiterals(p) || (StopsFrom(p, from) && Apart(p, t) && OnTrack(p, t, i, j, ni, nj))
    requires from <= i && (nj > 0 ==> from <= ni)
    requires Turns(p, t, past, Cursor(i, j, ni, nj), n) == Answer(true)
    requires i <= |p| && j <= |t| && (nj > 0 ==> ni < |p|) && Compared(p, t, i, j, ni, nj)
    ensures SlashMatches(p, t, i, j) || CanResumeThere(p, t, ni, nj)
    decreases n
  {
    hide SlashMatches;
    SlashMatchesHere(p, t, i, j);
    if i >= |p| && j >= |t| {
    } else if i < |p| && j < |t| && (p[i] == '?' || t[j] == p[i]) {
      TrueMeansSlashMatch(p, t, past, i + 1, j + 1, ni, nj, from, n - 1);
    } else if i < |p| && Wild(p[i]) {
      TrueMeansSlashMatch(p, t, past, i + 1, j, i, j + 1, from, n - 1);
    } else if nj > 0 && nj <= |t| && (p[ni] == '#' || (if j < |t| then t[j] else past) != '/') {
      TakesNoSlash(p, t, i, j, ni, nj);
      TrueMeansSlashMatch(p, t, past, ni, nj, ni, nj, from, n - 1);
    } else {
      AnswersStay(p, t, past, false, n - 1);
    }
  }

  lemma StarsStopAtSlashes(p: string, t: string, past: char)
    requires StarsMeetLiterals(p) || (Stops(p) && Apart(p, t))
    requires Answers(p, t, past, true)
    ensures SlashMatches(p, t, 0, 0)
  {
    var n: nat :| Turns(p, t, past, START, n) == Answer(true);
    TrueMeansSlashMatch(p, t, past, 0, 0, 0, 0, 0, n);
  }

  // ------------------------------------------------- what is refused

  /** On track, and what has been compared since the backtrack point agrees. */
  ghost predicate Kept(p: string, t: string, i: nat, j: nat, ni: nat, nj: nat) {
    OnTrack(p, t, i, j, ni, nj) && (nj > 0 && ni < i ==> Agree(p, t, ni + 1, nj - 1, i - ni - 1))
  }

  /** Literals that stand at two places less than a slash apart contain no slash. */
  lemma {:induction false} NoSlashInShifted(p: string, t: string, i: nat, k: nat, k': nat, n: nat, e: nat)
    requires Agree(p, t, i, k, n) && Agree(p, t, i, k', n) && k < k' && NoSlash(t, k, k')
    requires e < n && forall m :: i <= m < i + n ==> p[m] != '?'
    ensures p[i + e] != '/'
    decreases e
  {
    if p[i + e] == '/' {
      assert t[k + (i + e - i)] == '/';
      var e' := k + e - k';
      assert t[k' + (i + e' - i)] == p[i + e'];
      NoSlashInShifted(p, t, i, k, k', n, e');
    }
  }

  /** Once the literals behind a wildcard have led to the next one, going back to the first gains nothing. */
  lemma GreedyIsEnoughThere(p: string, t: string, ni: nat, nj: nat, i: nat, j: nat)
    requires Settled(p) && Kept(p, t, i, j, ni, nj) && ni < i < |p| && Wild(p[i])
    requires CanResumeThere(p, t, ni, nj)
    ensures SlashMatches(p, t, i, j)
  {
    hide Settled;
    var n := i - ni - 1;
    var k :| nj <= k <= |t| && (p[ni] == '#' || NoSlash(t, nj, k)) && SlashMatches(p, t, ni + 1, k);
    SlashAcross(p, t, ni + 1, k, n);
    var k' :| k + n <= k' <= |t| && (p[i] == '#' || NoSlash(t, k + n, k')) && SlashMatches(p, t, i + 1, k');
    if p[i] == '*' {
      NotSettled(p, ni, i);
      forall m | ni < m < i ensures p[m] != '?' {
        NotSettled(p, ni, m);
      }
      assert NoSlash(t, nj - 1, k);
      forall m | j <= m < k' ensures t[m] != '/' {
        if k <= m < k + n {
          NoSlashInShifted(p, t, ni + 1, nj - 1, k, n, m - k);
          assert t[k + (ni + 1 + (m - k) - (ni + 1))] == p[ni + 1 + (m - k)];
        }
      }
    }
    WildTakes(p, t, i, j, k');
  }

  lemma NotSettled(p: string, i: nat, j: nat)
    requires i < j < |p| && Settled(p)
    ensures !(p[i] == '*' && p[j] == '?') && !(p[i] == '#' && p[j] == '*')
  {
  }

  /** Where the star at the backtrack point may not take a slash, no match is lost. */
  lemma RefusedRightly(p: string, t: string, i: nat, j: nat, ni: nat, nj: nat)
    requires Settled(p) && Kept(p, t, i, j, ni, nj) && ni < i && 0 < nj <= |t| && p[ni] == '*'
    requires i < |p| ==> !Wild(p[i])
    requires i < |p| && j < |t| ==> p[i] != '?' && p[i] != t[j]
    requires i < |p| || j < |t|
    requires j < |t| ==> t[j] == '/'
    ensures !CanResumeThere(p, t, ni, nj)
  {
    hide Settled;
    if CanResumeThere(p, t, ni, nj) {
      var n := i - ni - 1;
      var k :| nj <= k <= |t| && (p[ni] == '#' || NoSlash(t, nj, k)) && SlashMatches(p, t, ni + 1, k);
      SlashAcross(p, t, ni + 1, k, n);
      assert j < |t|;
      assert k <= j;
      forall m | ni < m < i ensures p[m] != '?' {
        NotSettled(p, ni, m);
      }
      assert NoSlash(t, nj - 1, k);
      assert t[k + (ni + 1 + (j - k) - (ni + 1))] == p[ni + 1 + (j - k)];
      NoSlashInShifted(p, t, ni + 1, nj - 1, k, n, j - k);
    }
  }

  /** For a settled pattern the one backtrack point loses no match. */
  lemma {:induction false} LosesNothing(p: string, t: string, past: char, i: nat, j: nat, ni: nat, nj: nat, n: nat,
      b: bool)
    requires Apart(p, t) && Settled(p) && Kept(p, t, i, j, ni, nj)
    requires Turns(p, t, past, Cursor(i, j, ni, nj), n) == Answer(b)
    requires SlashMatches(p, t, i, j) || CanResumeThere(p, t, ni, nj)
    ensures b
    decreases n
  {
    hide Settled;
    if i >= |p| && j >= |t| {
      AnswersStay(p, t, past, true, n - 1);
    } else if i < |p| && j < |t| && (p[i] == '?' || t[j] == p[i]) {
      LosesNothing(p, t, past, i + 1, j + 1, ni, nj, n - 1, b);
    } else if i < |p| && Wild(p[i]) {
      if CanResumeThere(p, t, ni, nj) && ni < i {
        GreedyIsEnoughThere(p, t, ni, nj, i, j);
      }
      WildGoesOn(p, t, i, j);
      LosesNothing(p, t, past, i + 1, j, i, j + 1, n - 1, b);
    } else if nj > 0 && nj <= |t| && (p[ni] == '#' || (if j < |t| then t[j] else past) != '/') {
      LosesNothing(p, t, past, ni, nj, ni, nj, n - 1, b);
    } else {
      assert !SlashMatches(p, t, i, j);
      RefusedRightly(p, t, i, j, ni, nj);
    }
  }

  /** A settled pattern with stars that stop: both answers are right on every text apart from the wildcards. */
  lemma DecidesSettled(p: string, t: string, past: char)
    requires Apart(p, t) && Settled(p) && Stops(p)
    ensures Answers(p, t, past, SlashMatches(p, t, 0, 0))
  {
    hide SlashMatches, Settled, Stops;
    var n, b := Decides(p, t, past, 0, 0, 0, 0);
    if b {
      assert Answers(p, t, past, true);
      StarsStopAtSlashes(p, t, past);
    } else if SlashMatches(p, t, 0, 0) {
      LosesNothing(p, t, past, 0, 0, 0, 0, n, b);
    }
  }

  // ------------------------------------------------- texts on which every wildcard takes nothing

  /** A character that stands for itself; an x where any will do. */
  function Plainly(c: char): (d: char) {
    if c == '?' then 'x' else c
  }

  /** The pattern's own characters, without its wildcards. */
  function Lits(p: string): (t: string)
    ensures |t| <= |p| && forall k :: 0 <= k < |t| ==> !Wild(t[k])
  {
    if p == "" then "" else (if Wild(p[0]) then "" else [Plainly(p[0])]) + Lits(p[1..])
  }

  lemma {:induction false} LitsSplit(a: string, b: string)
    ensures Lits(a + b) == Lits(a) + Lits(b)
  {
    if a == "" {
      assert a + b == b;
    } else {
      LitsSplit(a[1..], b);
      assert (a + b)[1..] == a[1..] + b;
      ConcatAssociates(if Wild(a[0]) then "" else [Plainly(a[0])], Lits(a[1..]), Lits(b));
    }
  }

  predicate Plain(p: string) {
    forall i :: 0 <= i < |p| ==> !Wild(p[i])
  }

  lemma {:induction false} LitsOfPlain(p: string)
    requires Plain(p)
    ensures |Lits(p)| == |p| && forall k :: 0 <= k < |p| ==> Lits(p)[k] == Plainly(p[k])
  {
    if p != "" {
      LitsOfPlain(p[1..]);
    }
  }

  lemma LitsStep(p: string, i: nat, n: nat, t: string, j: nat)
    requires 0 < n && i + n <= |p| && LiesAt(Lits(p[i..i + n]), t, j)
    ensures var rest := Lits(p[i + 1..i + n]);
            if Wild(p[i]) then Lits(p[i..i + n]) == rest && LiesAt(rest, t, j)
            else |Lits(p[i..i + n])| == 1 + |rest| && j < |t| && t[j] == Plainly(p[i]) && LiesAt(rest, t, j + 1)
  {
    var q := p[i..i + n];
    assert q[0] == p[i] && q[1..] == p[i + 1..i + n];
    if !Wild(p[i]) {
      PartsLieAt([Plainly(p[i])], Lits(q[1..]), t, j);
      assert t[j + 0] == [Plainly(p[i])][0];
    }
  }

  lemma LitsOfNothing(p: string, i: nat)
    requires i <= |p|
    ensures Lits(p[i..i]) == ""
  {
  }

  /** Over such a text the loop reads the pattern with every wildcard taking nothing. */
  lemma {:induction false} ReadsThrough(p: string, t: string, past: char, i: nat, j: nat, ni: nat, nj: nat, n: nat)
      returns (m: nat, ni': nat, nj': nat)
    requires i + n <= |p| && LiesAt(Lits(p[i..i + n]), t, j) && Plain(t)
    ensures Turns(p, t, past, Cursor(i, j, ni, nj), m) == Cursor(i + n, j + |Lits(p[i..i + n])|, ni', nj')
    decreases n
  {
    hide Lits, LiesAt;
    if n == 0 {
      LitsOfNothing(p, i);
      m, ni', nj' := 0, ni, nj;
    } else {
      LitsStep(p, i, n, t, j);
      if Wild(p[i]) {
        m, ni', nj' := ReadsThrough(p, t, past, i + 1, j, i, j + 1, n - 1);
      } else {
        m, ni', nj' := ReadsThrough(p, t, past, i + 1, j + 1, ni, nj, n - 1);
      }
      m := m + 1;
    }
  }

  /** Such a text in front of a match. */
  lemma {:induction false} LitsInFront(p: string, t: string, i: nat, j: nat, n: nat)
    requires i + n <= |p| && LiesAt(Lits(p[i..i + n]), t, j)
    requires SlashMatches(p, t, i + n, j + |Lits(p[i..i + n])|)
    ensures j <= |t| && SlashMatches(p, t, i, j)
    decreases n
  {
    hide SlashMatches;
    if n > 0 {
      LitsStep(p, i, n, t, j);
      LitsInFront(p, t, i + 1, if Wild(p[i]) then j else j + 1, n - 1);
      SlashMatchesHere(p, t, i, j);
    }
  }

  ghost predicate Reaches(p: string, t: string, past: char, c: Cursor) {
    exists n: nat :: Turns(p, t, past, START, n) == c
  }

  lemma ReachesOn(p: string, t: string, past: char, c: Cursor, n: nat)
    requires Reaches(p, t, past, c)
    ensures Reaches(p, t, past, Turns(p, t, past, c, n))
  {
    var m: nat :| Turns(p, t, past, START, m) == c;
    TurnsCompose(p, t, past, START, m, n);
  }

  /** The loop has just let the wildcard at `s` take the text up to `k`. */
  function Trial(s: nat, k: nat): (c: Cursor) {
    Cursor(s + 1, k, s, k + 1)
  }

  /** On the literals in front of a wildcard the loop comes to its first trial. */
  lemma FirstTrial(p: string, t: string, past: char, s: nat)
    requires s < |p| && Wild(p[s]) && LiesAt(Lits(p[..s]), t, 0) && Plain(t)
    ensures Reaches(p, t, past, Trial(s, |Lits(p[..s])|))
  {
    assert p[0..0 + s] == p[..s];
    var m, ni, nj := ReadsThrough(p, t, past, 0, 0, 0, 0, s);
    var c := Cursor(s, |Lits(p[..s])|, ni, nj);
    assert Reaches(p, t, past, c);
    OneTurn(p, t, past, c);
    ReachesOn(p, t, past, c, 1);
  }

  lemma OneTurn(p: string, t: string, past: char, c: Cursor)
    ensures Turns(p, t, past, c, 1) == Turn(p, t, past, c)
  {
    assert Turns(p, t, past, c, 1) == Turns(p, t, past, Turn(p, t, past, c), 0);
  }

  /** A mismatch away from slashes makes the star take one character more. */
  lemma NextTrial(p: string, t: string, past: char, s: nat, k: nat, d: nat)
    requires s < |p| && p[s] == '*' && '*' !in t && k + d < |t| && Agree(p, t, s + 1, k, d) && t[k + d] != '/'
    requires s + 1 + d < |p| ==> !Wild(p[s + 1 + d]) && p[s + 1 + d] != '?' && t[k + d] != p[s + 1 + d]
    requires Reaches(p, t, past, Trial(s, k))
    ensures Reaches(p, t, past, Trial(s, k + 1))
  {
    InStep(p, t, past, s + 1, k, s, k + 1, d);
    ReachesOn(p, t, past, Trial(s, k), d);
    var c, c' := Cursor(s + 1 + d, k + d, s, k + 1), Cursor(s, k + 1, s, k + 1);
    OneTurn(p, t, past, c);
    assert Turn(p, t, past, c) == c';
    ReachesOn(p, t, past, c, 1);
    OneTurn(p, t, past, c');
    assert Turn(p, t, past, c') == Trial(s, k + 1);
    ReachesOn(p, t, past, c', 1);
  }

  /** A mismatch at a slash ends the loop. */
  lemma NoNextTrial(p: string, t: string, past: char, s: nat, k: nat, d: nat)
    requires s < |p| && p[s] == '*' && k + d < |t| && Agree(p, t, s + 1, k, d) && t[k + d] == '/'
    requires s + 1 + d < |p| ==> !Wild(p[s + 1 + d]) && p[s + 1 + d] != '?' && t[k + d] != p[s + 1 + d]
    requires Reaches(p, t, past, Trial(s, k))
    ensures Answers(p, t, past, false)
  {
    InStep(p, t, past, s + 1, k, s, k + 1, d);
    ReachesOn(p, t, past, Trial(s, k), d);
    var c := Cursor(s + 1 + d, k + d, s, k + 1);
    OneTurn(p, t, past, c);
    ReachesOn(p, t, past, c, 1);
  }

  /** A trial at which the rest of the pattern is found, with every wildcard taking nothing. */
  lemma LastTrial(p: string, t: string, past: char, s: nat, k: nat)
    requires s < |p| && LiesAt(Lits(p[s + 1..]), t, k) && k + |Lits(p[s + 1..])| == |t| && Plain(t)
    requires Reaches(p, t, past, Trial(s, k))
    ensures Answers(p, t, past, true)
  {
    var n := |p| - s - 1;
    assert p[s + 1..s + 1 + n] == p[s + 1..];
    var m, ni, nj := ReadsThrough(p, t, past, s + 1, k, s, k + 1, n);
    ReachesOn(p, t, past, Trial(s, k), m);
    var c := Cursor(|p|, |t|, ni, nj);
    OneTurn(p, t, past, c);
    ReachesOn(p, t, past, c, 1);
  }

  lemma NotRight(p: string, past: char, t: string, b: bool)
    requires Apart(p, t) && Answers(p, t, past, b) && SlashMatches(p, t, 0, 0) == !b
    ensures !Right(p, past)
  {
    if Right(p, past) {
      assert Answers(p, t, past, !b);
      var m: nat :| Turns(p, t, past, START, m) == Answer(b);
      var n: nat :| Turns(p, t, past, START, n) == Answer(!b);
      OneAnswer(p, t, past, b, !b, m, n);
    }
  }

  lemma PlainIsApart(p: string, t: string)
    requires Plain(t)
    ensures Apart(p, t)
  {
  }

  // ------------------------------------------------- settled patterns: right exactly when the stars stop

  function Slashes(t: string): (n: nat) {
    if t == "" then 0 else (if t[0] == '/' then 1 else 0) + Slashes(t[1..])
  }

  lemma {:induction false} SlashesSplit(a: string, b: string)
    ensures Slashes(a + b) == Slashes(a) + Slashes(b)
  {
    if a == "" {
      assert a + b == b;
    } else {
      SlashesSplit(a[1..], b);
      assert (a + b)[1..] == a[1..] + b;
    }
  }

  lemma {:induction false} NoSlashes(t: string, j: nat, k: nat)
    requires NoSlash(t, j, k)
    ensures Slashes(t[j..k]) == 0
    decreases k - j
  {
    if j < k {
      NoSlashes(t, j + 1, k);
      assert t[j..k][1..] == t[j + 1..k];
    }
  }

  lemma {:induction false} SlashesOfLits(p: string)
    ensures Slashes(Lits(p)) == Slashes(p)
  {
    if p != "" {
      SlashesOfLits(p[1..]);
      if !Wild(p[0]) {
        assert Lits(p)[1..] == Lits(p[1..]);
      } else {
        assert Lits(p) == Lits(p[1..]);
      }
    }
  }

  lemma TwoPieces(t: string, i: nat, j: nat, k: nat)
    requires i <= j <= k <= |t|
    ensures t[i..k] == t[i..j] + t[j..k]
  {
  }

  /** Two slashes with as many slashes in front of them are one and the same. */
  lemma SameSlash(t: string, j: nat, k: nat, k': nat)
    requires j <= k < |t| && j <= k' < |t| && t[k] == '/' && t[k'] == '/'
    requires Slashes(t[j..k]) == Slashes(t[j..k'])
    ensures k == k'
  {
    if k != k' {
      var lo, hi := if k < k' then k else k', if k < k' then k' else k;
      TwoPieces(t, j, lo, hi);
      assert t[lo..hi][0] == '/';
      SlashesSplit(t[j..lo], t[lo..hi]);
    }
  }

  /** Where stars take no slash, the slashes of a match are those of the pattern. */
  lemma {:induction false} SlashesAgree(p: string, t: string, i: nat, j: nat, s: nat) returns (k: nat)
    requires i <= s <= |p| && j <= |t| && SlashMatches(p, t, i, j)
    requires forall m :: i <= m < s ==> p[m] != '#' && p[m] != '?'
    ensures j <= k <= |t| && SlashMatches(p, t, s, k) && Slashes(t[j..k]) == Slashes(p[i..s])
    decreases s - i
  {
    if i == s {
      k := j;
    } else {
      var next := i + 1;
      var j' :| j <= j' <= |t| && SlashMatches(p, t, next, j') &&
          (if Wild(p[i]) then NoSlash(t, j, j') else j' == j + 1 && p[i] == t[j]);
      k := SlashesAgree(p, t, next, j', s);
      assert p[i..s][1..] == p[next..s];
      SlashesSplit(t[j..j'], t[j'..k]);
      TwoPieces(t, j, j', k);
      if Wild(p[i]) {
        NoSlashes(t, j, j');
      }
    }
  }

  /** The text with a slash too many for a star at `s` that a slash follows: it is offered twice. */
  function SlashTwice(p: string, s: nat): (t: string)
    requires s + 1 < |p|
  {
    Lits(p[..s]) + ("/" + [if s + 2 < |p| && p[s + 2] == 'y' then 'z' else 'y']) + Lits(p[s + 1..])
  }

  lemma SlashTwiceParts(p: string, s: nat)
    requires s + 1 < |p| && p[s + 1] == '/'
    ensures var t, k := SlashTwice(p, s), |Lits(p[..s])|;
            && Plain(t) && LiesAt(Lits(p[..s]), t, 0) && LiesAt(Lits(p[s + 1..]), t, k + 2)
            && k + 2 + |Lits(p[s + 1..])| == |t| && k + 2 < |t| && t[k] == '/' && t[..k] == Lits(p[..s])
            && t[k + 1] != '/' && (s + 2 < |p| ==> t[k + 1] != p[s + 2])
  {
    assert Lits(p[s + 1..])[0] == '/';
  }

  lemma SlashTwiceIsAccepted(p: string, s: nat, past: char)
    requires s + 1 < |p| && p[s] == '*' && p[s + 1] == '/'
    requires s + 2 < |p| ==> !Wild(p[s + 2]) && p[s + 2] != '?'
    ensures Answers(p, SlashTwice(p, s), past, true)
  {
    hide SlashTwice, Lits, Reaches;
    var t, k := SlashTwice(p, s), |Lits(p[..s])|;
    SlashTwiceParts(p, s);
    FirstTrial(p, t, past, s);
    NextTrial(p, t, past, s, k, 1);
    NextTrial(p, t, past, s, k + 1, 0);
    LastTrial(p, t, past, s, k + 2);
  }

  lemma {:induction false} FirstWildcard(p: string, s: nat) returns (f: nat)
    requires s < |p| && Wild(p[s])
    ensures f <= s && Wild(p[f]) && Plain(p[..f])
    decreases s
  {
    if k :| 0 <= k < s && Wild(p[k]) {
      f := FirstWildcard(p, k);
    } else {
      f := s;
    }
  }

  /** Counting slashes, the pattern's slash behind `s` can only stand at the first one offered. */
  lemma FirstOffer(p: string, s: nat, f: nat, t: string, k': nat)
    requires f <= s < |p| && p[s] == '*' && Plain(p[..f])
    requires |Lits(p[..s])| <= |t| && t[..|Lits(p[..s])|] == Lits(p[..s]) && f <= k' <= |t|
    requires Slashes(t[f..k']) == Slashes(p[f..s + 1])
    ensures f <= |Lits(p[..s])| && Slashes(t[f..k']) == Slashes(t[f..|Lits(p[..s])|])
  {
    LitsFrom(p, f, s);
    var k := |Lits(p[..s])|;
    assert t[f..k] == t[..k][f..];
    assert p[f..s + 1] == p[f..s] + ['*'];
    SlashesSplit(p[f..s], ['*']);
    SlashesOfLits(p[f..s]);
    assert Slashes(['*']) == Slashes([]) == 0;
  }

  /** No match of that text keeps its stars off slashes: the pattern's slash would stand at the wrong one. */
  lemma SlashTwiceDoesNotMatch(p: string, s: nat)
    requires Settled(p) && s + 1 < |p| && p[s] == '*' && p[s + 1] == '/' && (s + 2 < |p| ==> !Wild(p[s + 2]))
    ensures !SlashMatches(p, SlashTwice(p, s), 0, 0)
  {
    hide SlashTwice, Settled, Slashes, Lits, Plain;
    var t, k := SlashTwice(p, s), |Lits(p[..s])|;
    SlashTwiceParts(p, s);
    if SlashMatches(p, t, 0, 0) {
      var f := FirstWildcard(p, s);
      FirstIsStar(p, f, s);
      PlainFront(p, f);
      hide SlashMatches;
      SlashAcross(p, t, 0, 0, f);
      var k' := SlashesAgree(p, t, f, f, s + 1);
      FirstOffer(p, s, f, t, k');
      SlashNext(p, t, s + 1, k');
      NotSettledBehind(p, s);
      if s + 2 < |p| {
        SlashNext(p, t, s + 2, k' + 1);
      } else {
        SlashEnd(p, t, k' + 1);
      }
      SameSlash(t, f, k, k');
    }
  }

  lemma PlainFront(p: string, f: nat)
    requires f <= |p| && Plain(p[..f])
    ensures forall k :: 0 <= k < f ==> !Wild(p[k])
  {
    forall k | 0 <= k < f ensures !Wild(p[k]) {
      assert p[..f][k] == p[k];
    }
  }

  lemma SlashNext(p: string, t: string, i: nat, j: nat)
    requires i < |p| && !Wild(p[i]) && p[i] != '?' && j <= |t| && SlashMatches(p, t, i, j)
    ensures j < |t| && t[j] == p[i] && SlashMatches(p, t, i + 1, j + 1)
  {
  }

  lemma SlashEnd(p: string, t: string, j: nat)
    requires j <= |t| && SlashMatches(p, t, |p|, j)
    ensures j == |t|
  {
  }

  lemma FirstIsStar(p: string, f: nat, s: nat)
    requires Settled(p) && f <= s < |p| && Wild(p[f]) && p[s] == '*'
    ensures forall m :: f <= m < s + 1 ==> p[m] != '#' && p[m] != '?'
  {
    forall m | f <= m < s + 1 ensures p[m] != '#' && p[m] != '?' {
      if f < m { NotSettled(p, f, m); }
      if m < s { NotSettled(p, m, s); }
      if f < s { NotSettled(p, f, s); }
    }
  }

  lemma NotSettledBehind(p: string, s: nat)
    requires Settled(p) && s < |p| && p[s] == '*'
    ensures s + 2 < |p| ==> p[s + 2] != '?'
  {
  }

  lemma LitsFrom(p: string, f: nat, s: nat)
    requires f <= s <= |p| && Plain(p[..f])
    ensures f <= |Lits(p[..s])| && Lits(p[..s])[f..] == Lits(p[f..s])
  {
    LitsOfPlain(p[..f]);
    LitsSplit(p[..f], p[f..s]);
    assert p[..s] == p[..f] + p[f..s];
  }

  /**
   * A pattern with no question mark behind a star and no star behind a hash is decided rightly, on
   * every text without its wildcards, exactly when its stars stop.
   */
  lemma RightExactlyWhenStarsStop(p: string, past: char)
    requires Settled(p)
    ensures Right(p, past) <==> Stops(p)
  {
    if Stops(p) {
      forall t | Apart(p, t) ensures Answers(p, t, past, SlashMatches(p, t, 0, 0)) {
        DecidesSettled(p, t, past);
      }
    } else {
      var s :| 0 <= s < |p| - 1 && p[s] == '*' && !Wild(p[s + 1]) && (p[s + 1] == '/' || p[s + 1] == '?') &&
          !(s + 2 < |p| && Wild(p[s + 2]));
      NotSettledBehind(p, s);
      NotSettled(p, s, s + 1);
      var t := SlashTwice(p, s);
      SlashTwiceParts(p, s);
      PlainIsApart(p, t);
      SlashTwiceIsAccepted(p, s, past);
      SlashTwiceDoesNotMatch(p, s);
      NotRight(p, past, t, true);
    }
  }
}
