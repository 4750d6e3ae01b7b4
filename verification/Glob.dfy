// What mg_globmatch of components/mongoose/src/util.c does turn by turn, a matcher that
// remembers one backtrack point only, against the meaning of a pattern.
module Glob {

  predicate Wild(c: char) {
    c == '*' || c == '#'
  }

  // ------------------------------------------------------ meaning of a pattern

  /** p[i..] matches t[j..]: a wildcard takes any run of characters, ? any one, a literal itself. */
  ghost predicate Matches(p: string, t: string, i: nat, j: nat)
    requires i <= |p| && j <= |t|
    decreases |p| - i
  {
    if i == |p| then j == |t|
    else if Wild(p[i]) then var next := i + 1; exists k :: j <= k <= |t| && Matches(p, t, next, k)
    else j < |t| && (p[i] == '?' || p[i] == t[j]) && Matches(p, t, i + 1, j + 1)
  }

  /** Pattern character i and the piece of text between cuts i and i + 1. */
  ghost predicate PieceFits(p: string, t: string, cuts: seq<nat>, i: nat)
    requires i < |p| && i + 1 < |cuts|
  {
    && cuts[i] <= cuts[i + 1] <= |t|
    && (!Wild(p[i]) ==> cuts[i + 1] == cuts[i] + 1 && (p[i] == '?' || p[i] == t[cuts[i]]))
  }

  /** The same meaning, said without recursion: the text can be cut so that every pattern character fits its piece. */
  ghost predicate Fits(p: string, t: string, cuts: seq<nat>) {
    && |cuts| == |p| + 1 && cuts[0] == 0 && cuts[|p|] == |t|
    && forall i :: 0 <= i < |p| ==> PieceFits(p, t, cuts, i)
  }

  lemma {:induction false} MatchesFromCut(p: string, t: string, cuts: seq<nat>, i: nat)
    requires Fits(p, t, cuts) && i <= |p| && cuts[i] <= |t|
    ensures Matches(p, t, i, cuts[i])
    decreases |p| - i
  {
    if i < |p| {
      assert PieceFits(p, t, cuts, i);
      MatchesFromCut(p, t, cuts, i + 1);
    }
  }

  lemma {:induction false} CutFromMatches(p: string, t: string, i: nat, cuts: seq<nat>) returns (all: seq<nat>)
    requires i <= |p| && |cuts| == i + 1 && cuts[0] == 0 && cuts[i] <= |t| && Matches(p, t, i, cuts[i])
    requires forall k :: 0 <= k < i ==> PieceFits(p, t, cuts, k)
    ensures Fits(p, t, all)
    decreases |p| - i
  {
    if i == |p| {
      all := cuts;
    } else {
      var next := i + 1;
      var k :| cuts[i] <= k <= |t| && Matches(p, t, next, k) &&
          (Wild(p[i]) || (k == cuts[i] + 1 && (p[i] == '?' || p[i] == t[cuts[i]])));
      var longer := cuts + [k];
      forall n | 0 <= n < next ensures PieceFits(p, t, longer, n) {
        if n < i {
          assert PieceFits(p, t, cuts, n);
        }
      }
      all := CutFromMatches(p, t, next, longer);
    }
  }

  lemma MatchesIffCuttable(p: string, t: string)
    ensures Matches(p, t, 0, 0) <==> exists cuts :: Fits(p, t, cuts)
  {
    if Matches(p, t, 0, 0) {
      var cuts := CutFromMatches(p, t, 0, [0]);
      assert Fits(p, t, cuts);
    }
    forall cuts | Fits(p, t, cuts) ensures Matches(p, t, 0, 0) {
      MatchesFromCut(p, t, cuts, 0);
    }
  }

  // ------------------------------------------------- why one backtrack point is enough

  /** A wildcard may as well start earlier. */
  lemma WildStartsEarlier(p: string, t: string, i: nat, j: nat, k: nat)
    requires i < |p| && Wild(p[i]) && j <= k <= |t|
    ensures Matches(p, t, i, k) ==> Matches(p, t, i, j)
  {
  }

  /** A wildcard takes nothing here, or one character more. */
  lemma WildTakesOneMore(p: string, t: string, i: nat, j: nat)
    requires i < |p| && Wild(p[i]) && j <= |t|
    ensures Matches(p, t, i, j) <==> Matches(p, t, i + 1, j) || (j < |t| && Matches(p, t, i, j + 1))
  {
  }

  /** Across characters that are no wildcards pattern and text advance together. */
  lemma {:induction false} AcrossLiterals(p: string, t: string, i: nat, j: nat, n: nat)
    requires i + n <= |p| && j <= |t| && Matches(p, t, i, j)
    requires forall k :: i <= k < i + n ==> !Wild(p[k])
    ensures j + n <= |t| && Matches(p, t, i + n, j + n)
    decreases n
  {
    if n > 0 {
      AcrossLiterals(p, t, i + 1, j + 1, n - 1);
    }
  }

  /** Once the literals behind a wildcard have led to the next one, going back to the first gains nothing. */
  lemma GreedyIsEnough(p: string, t: string, ni: nat, nj: nat, i: nat, j: nat)
    requires ni < i < |p| && Wild(p[ni]) && Wild(p[i]) && 0 < nj <= |t| && j <= |t|
    requires i - ni == j + 2 - nj
    requires forall k :: ni < k < i ==> !Wild(p[k])
    requires Matches(p, t, ni, nj)
    ensures Matches(p, t, i, j)
  {
    var k :| nj <= k <= |t| && Matches(p, t, ni + 1, k);
    AcrossLiterals(p, t, ni + 1, k, i - ni - 1);
    WildStartsEarlier(p, t, i, j, k + (i - ni - 1));
  }

  // --------------------------------------------------------- the loop as a machine

  datatype Cursor = Cursor(i: nat, j: nat, ni: nat, nj: nat) | Answer(b: bool)

  const START: Cursor := Cursor(0, 0, 0, 0)

  /** One turn of the loop, for any pattern and text; `past` is the character behind the text. */
  function Turn(p: string, t: string, past: char, c: Cursor): (c': Cursor) {
    match c
    case Answer(_) => c
    case Cursor(i, j, ni, nj) =>
      if i >= |p| && j >= |t| then Answer(true)
      else if i < |p| && j < |t| && (p[i] == '?' || t[j] == p[i]) then Cursor(i + 1, j + 1, ni, nj)
      else if i < |p| && (p[i] == '*' || p[i] == '#') then Cursor(i + 1, j, i, j + 1)
      else if nj > 0 && nj <= |t| && ni < |p| && (p[ni] == '#' || (if j < |t| then t[j] else past) != '/')
      then Cursor(ni, nj, ni, nj)
      else Answer(false)
  }

  function Turns(p: string, t: string, past: char, c: Cursor, n: nat): (c': Cursor)
    decreases n
  {
    if n == 0 then c else Turns(p, t, past, Turn(p, t, past, c), n - 1)
  }

  /** The loop ends, with this answer. */
  ghost predicate Answers(p: string, t: string, past: char, b: bool) {
    exists n: nat :: Turns(p, t, past, START, n) == Answer(b)
  }

  lemma {:induction false} TurnsCompose(p: string, t: string, past: char, c: Cursor, m: nat, n: nat)
    ensures Turns(p, t, past, c, m + n) == Turns(p, t, past, Turns(p, t, past, c, m), n)
    decreases m
  {
    hide Turn;
    if m > 0 {
      TurnsCompose(p, t, past, Turn(p, t, past, c), m - 1, n);
    }
  }

  lemma {:induction false} AnswersStay(p: string, t: string, past: char, b: bool, n: nat)
    ensures Turns(p, t, past, Answer(b), n) == Answer(b)
  {
    if n > 0 {
      AnswersStay(p, t, past, b, n - 1);
    }
  }

  /** The loop gives one answer only. */
  lemma OneAnswer(p: string, t: string, past: char, b: bool, b': bool, m: nat, n: nat)
    requires Turns(p, t, past, START, m) == Answer(b) && Turns(p, t, past, START, n) == Answer(b')
    ensures b == b'
  {
    if m <= n {
      TurnsCompose(p, t, past, START, m, n - m);
      AnswersStay(p, t, past, b, n - m);
    } else {
      TurnsCompose(p, t, past, START, n, m - n);
      AnswersStay(p, t, past, b', m - n);
    }
  }

  ghost predicate CanResume(p: string, t: string, ni: nat, nj: nat) {
    0 < nj <= |t| && ni <= |p| && Matches(p, t, ni, nj)
  }

  /** For every pattern and text, wildcards in the text or not: the answer true is right. */
  lemma {:induction false} TrueMeansMatch(p: string, t: string, past: char, i: nat, j: nat, ni: nat, nj: nat, n: nat)
    requires Turns(p, t, past, Cursor(i, j, ni, nj), n) == Answer(true)
    requires i <= |p| && j <= |t| && (nj > 0 ==> ni < |p|)
    ensures Matches(p, t, i, j) || CanResume(p, t, ni, nj)
    decreases n
  {
    hide Matches;
    MatchesHere(p, t, i, j);
    match Turn(p, t, past, Cursor(i, j, ni, nj))
    case Answer(b) => AnswersStay(p, t, past, b, n - 1);
    case Cursor(i', j', ni', nj') => TrueMeansMatch(p, t, past, i', j', ni', nj', n - 1);
  }

  /** What one pattern character makes of a match behind it. */
  lemma MatchesHere(p: string, t: string, i: nat, j: nat)
    requires i <= |p| && j <= |t|
    ensures i == |p| && j == |t| ==> Matches(p, t, i, j)
    ensures i < |p| && j < |t| && (p[i] == '?' || p[i] == t[j]) && Matches(p, t, i + 1, j + 1) ==> Matches(p, t, i, j)
    ensures i < |p| && Wild(p[i]) && Matches(p, t, i + 1, j) ==> Matches(p, t, i, j)
    ensures i < |p| && Wild(p[i]) && j < |t| && Matches(p, t, i, j + 1) ==> Matches(p, t, i, j)
  {
    if i < |p| && Wild(p[i]) {
      WildTakesOneMore(p, t, i, j);
      if j < |t| { WildTakesOneMore(p, t, i, j + 1); }
    }
  }

  // ---------------------------------------------------------------- the matcher

  /** No wildcard of the pattern is a character of the text. */
  ghost predicate Apart(p: string, t: string) {
    forall i, j :: 0 <= i < |p| && 0 <= j < |t| && Wild(p[i]) ==> p[i] != t[j]
  }

  /** Where a wildcard means "any run of characters": `#` always, `*` away from slashes. */
  ghost predicate StarsAreRuns(p: string, t: string, past: char) {
    '*' !in p || ('/' !in t && past != '/')
  }

  /** The backtrack point is behind, and from it to here the pattern has only single characters. */
  ghost predicate OnTrack(p: string, t: string, i: nat, j: nat, ni: nat, nj: nat) {
    && i <= |p| && j <= |t| && nj <= |t| + 1
    && (nj > 0 ==>
          && ni < |p| && Wild(p[ni])
          && ((i == ni && j == nj)
              || (ni < i && i - ni == j + 2 - nj && forall k :: ni < k < i ==> !Wild(p[k]))))
    && (nj == 0 ==> ni == 0)
  }

  /** On a text without the pattern's wildcards the loop ends, and the one backtrack point loses no match. */
  lemma {:induction false} Decides(p: string, t: string, past: char, i: nat, j: nat, ni: nat, nj: nat)
      returns (n: nat, b: bool)
    requires Apart(p, t) && OnTrack(p, t, i, j, ni, nj)
    ensures Turns(p, t, past, Cursor(i, j, ni, nj), n) == Answer(b)
    ensures StarsAreRuns(p, t, past) && (Matches(p, t, i, j) || CanResume(p, t, ni, nj)) ==> b
    decreases |p| - ni, |t| + 1 - nj, if nj > 0 && i == ni then 0 else 1, |p| - i
  {
    var c := Cursor(i, j, ni, nj);
    if i >= |p| && j >= |t| {
      n, b := 1, true;
    } else if i < |p| && j < |t| && (p[i] == '?' || t[j] == p[i]) {
      n, b := Decides(p, t, past, i + 1, j + 1, ni, nj);
      n := n + 1;
    } else if i < |p| && Wild(p[i]) {
      if 0 < nj <= |t| && ni < i && Matches(p, t, ni, nj) {
        GreedyIsEnough(p, t, ni, nj, i, j);
      }
      WildTakesOneMore(p, t, i, j);
      n, b := Decides(p, t, past, i + 1, j, i, j + 1);
      n := n + 1;
    } else if nj > 0 && nj <= |t| && (p[ni] == '#' || (if j < |t| then t[j] else past) != '/') {
      n, b := Decides(p, t, past, ni, nj, ni, nj);
      n := n + 1;
    } else {
      n, b := 1, false;
      assert Turns(p, t, past, Turn(p, t, past, c), 0) == Answer(false);
    }
  }

  /** The loop ends on every text that is apart from the pattern's wildcards. */
  lemma EndsWhenApart(p: string, t: string, past: char)
    requires Apart(p, t)
    ensures exists b :: Answers(p, t, past, b)
  {
    var n, b := Decides(p, t, past, 0, 0, 0, 0);
    assert Answers(p, t, past, b);
  }

  // -------------------------------------------- for which patterns every text is decided

  ghost predicate DecidesText(p: string, t: string, past: char) {
    Answers(p, t, past, Matches(p, t, 0, 0))
  }

  /** The pattern as a text: a wildcard stands for itself, a question mark for an x. */
  function AsText(p: string): (t: string)
    ensures |t| == |p| && forall i :: 0 <= i < |p| ==> t[i] == if p[i] == '?' then 'x' else p[i]
  {
    seq(|p|, i requires 0 <= i < |p| => if p[i] == '?' then 'x' else p[i])
  }

  /** Pattern and text agree in `n` characters from here on. */
  predicate Agree(p: string, t: string, i: nat, j: nat, n: nat) {
    i + n <= |p| && j + n <= |t| && forall k :: i <= k < i + n ==> p[k] == '?' || t[j + (k - i)] == p[k]
  }

  /** Where pattern and text agree character by character, the loop advances in step. */
  lemma {:induction false} InStep(p: string, t: string, past: char, i: nat, j: nat, ni: nat, nj: nat, n: nat)
    requires Agree(p, t, i, j, n)
    ensures Turns(p, t, past, Cursor(i, j, ni, nj), n) == Cursor(i + n, j + n, ni, nj)
    decreases n
  {
    if n > 0 {
      InStep(p, t, past, i + 1, j + 1, ni, nj, n - 1);
    }
  }

  /** Agreeing characters in front of a match. */
  lemma {:induction false} AgreeingFront(p: string, t: string, i: nat, j: nat, n: nat)
    requires Agree(p, t, i, j, n) && Matches(p, t, i + n, j + n)
    ensures Matches(p, t, i, j)
    decreases n
  {
    hide Matches;
    if n > 0 {
      AgreeingFront(p, t, i + 1, j + 1, n - 1);
      MatchesHere(p, t, i, j);
    }
  }

  /** Without a wildcard ahead and without a backtrack point the loop compares to the end. */
  lemma {:induction false} PlainCompare(p: string, t: string, past: char, i: nat, j: nat) returns (n: nat)
    requires i <= |p| && j <= |t| && forall k :: i <= k < |p| ==> !Wild(p[k])
    ensures Turns(p, t, past, Cursor(i, j, 0, 0), n) == Answer(Matches(p, t, i, j))
    decreases |p| - i
  {
    if i < |p| && j < |t| && (p[i] == '?' || t[j] == p[i]) {
      n := PlainCompare(p, t, past, i + 1, j + 1);
      n := n + 1;
    } else {
      n := 1;
      assert Turns(p, t, past, Turn(p, t, past, Cursor(i, j, 0, 0)), 0) == Answer(Matches(p, t, i, j));
    }
  }

  /**
   * A text that the pattern matches and the loop refuses: its last wildcard `w` meets itself, and one
   * character too many follows.
   */
  function MisleadingText(p: string, w: nat): (t: string)
    requires w < |p|
  {
    AsText(p)[..w + 1] + "y" + AsText(p)[w + 1..]
  }

  lemma MisleadingParts(p: string, w: nat)
    requires w < |p|
    ensures var t := MisleadingText(p, w);
            |t| == |p| + 1 && Agree(p, t, 0, 0, w) && Agree(p, t, 0, 0, w + 1) && Agree(p, t, w + 1, w + 2, |p| - w - 1)
  {
    var t := MisleadingText(p, w);
    assert forall k :: 0 <= k < w + 1 ==> t[k] == AsText(p)[k];
    assert forall k :: w + 1 <= k < |p| ==> t[w + 2 + (k - (w + 1))] == AsText(p)[k];
  }

  lemma MisleadingTextMatches(p: string, w: nat)
    requires w < |p| && Wild(p[w])
    ensures Matches(p, MisleadingText(p, w), 0, 0)
  {
    hide Matches, MisleadingText, Agree;
    var t, n := MisleadingText(p, w), |p| - w - 1;
    MisleadingParts(p, w);
    MatchesHere(p, t, |p|, |t|);
    assert w + 1 + n == |p| && w + 2 + n == |t|;
    AgreeingFront(p, t, w + 1, w + 2, n);
    MatchesHere(p, t, w, w + 2);
    MatchesHere(p, t, w, w + 1);
    MatchesHere(p, t, w, w);
    AgreeingFront(p, t, 0, 0, w);
  }

  lemma MisleadingTextIsRefused(p: string, w: nat, past: char)
    requires w < |p| && Wild(p[w]) && forall k :: w < k < |p| ==> !Wild(p[k])
    ensures Answers(p, MisleadingText(p, w), past, false)
  {
    var t := MisleadingText(p, w);
    MisleadingParts(p, w);
    InStep(p, t, past, 0, 0, 0, 0, w + 1);
    var n := PlainCompare(p, t, past, w + 1, w + 1);
    if Matches(p, t, w + 1, w + 1) {
      AcrossLiterals(p, t, w + 1, w + 1, |p| - w - 1);
      assert false;
    }
    TurnsCompose(p, t, past, START, w + 1, n);
  }

  lemma {:induction false} LastWildcard(p: string, i: nat) returns (w: nat)
    requires i < |p| && Wild(p[i])
    ensures w < |p| && Wild(p[w]) && forall k :: w < k < |p| ==> !Wild(p[k])
    decreases |p| - i
  {
    if k :| i < k < |p| && Wild(p[k]) {
      w := LastWildcard(p, k);
    } else {
      w := i;
    }
  }

  /** The loop decides every text, rightly and in finitely many turns, exactly when the pattern has no wildcard. */
  lemma DecidesEveryTextExactlyWithoutWildcards(p: string, past: char)
    ensures (forall t :: DecidesText(p, t, past)) <==> (forall i :: 0 <= i < |p| ==> !Wild(p[i]))
  {
    if i :| 0 <= i < |p| && Wild(p[i]) {
      var w := LastWildcard(p, i);
      var t := MisleadingText(p, w);
      MisleadingTextMatches(p, w);
      MisleadingTextIsRefused(p, w, past);
      if DecidesText(p, t, past) {
        var m: nat :| Turns(p, t, past, START, m) == Answer(false);
        var n: nat :| Turns(p, t, past, START, n) == Answer(true);
        OneAnswer(p, t, past, false, true, m, n);
      }
    } else {
      forall t ensures DecidesText(p, t, past) {
        var n := PlainCompare(p, t, past, 0, 0);
      }
    }
  }

  /** A text that contains a wildcard of the pattern can also keep the loop going round for ever. */
  lemma {:induction false} CanGoRoundForEver(past: char, n: nat)
    ensures Turns("#b", "a#c", past, START, n).Cursor?
  {
    if n > 0 {
      assert Turn("#b", "a#c", past, START) == Cursor(1, 0, 0, 1);
      GoesRound(past, n - 1);
    }
  }

  lemma {:induction false} GoesRound(past: char, n: nat)
    ensures Turns("#b", "a#c", past, Cursor(1, 0, 0, 1), n).Cursor?
    ensures Turns("#b", "a#c", past, Cursor(0, 1, 0, 1), n).Cursor?
    ensures Turns("#b", "a#c", past, Cursor(1, 2, 0, 1), n).Cursor?
    decreases n
  {
    if n > 0 {
      GoesRound(past, n - 1);
      assert Turn("#b", "a#c", past, Cursor(1, 0, 0, 1)) == Cursor(0, 1, 0, 1);
      assert Turn("#b", "a#c", past, Cursor(0, 1, 0, 1)) == Cursor(1, 2, 0, 1);
      assert Turn("#b", "a#c", past, Cursor(1, 2, 0, 1)) == Cursor(0, 1, 0, 1);
    }
  }
}
