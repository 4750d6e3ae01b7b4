// mg_globmatch of components/mongoose/src/util.c, its loop as it stands.
module GlobMatcher {
  import opened Glob
  import opened GlobStars

  /** mg_globmatch(s1, n1, s2, n2), for every pattern and text on which its loop ends. */
  method GlobMatch(p: string, t: string, past: char) returns (b: bool)
    requires exists b' :: Answers(p, t, past, b')
    ensures Answers(p, t, past, b)
    ensures b ==> Matches(p, t, 0, 0)
    ensures Apart(p, t) && StarsAreRuns(p, t, past) ==> (b <==> Matches(p, t, 0, 0))
    ensures Apart(p, t) && Right(p, past) ==> (b <==> SlashMatches(p, t, 0, 0))
  {
    ghost var goal :| Answers(p, t, past, goal);
    ghost var left: nat :| Turns(p, t, past, START, left) == Answer(goal);
    ghost var all := left;
    var i, j, ni, nj := 0, 0, 0, 0;
    while i < |p| || j < |t|
      invariant i <= |p| && j <= |t| && (nj > 0 ==> ni < |p|)
      invariant Turns(p, t, past, Cursor(i, j, ni, nj), left) == Answer(goal)
      decreases left
    {
      assert Turns(p, t, past, Turn(p, t, past, Cursor(i, j, ni, nj)), left - 1) == Answer(goal);
      left := left - 1;
      if i < |p| && j < |t| && (p[i] == '?' || t[j] == p[i]) {
        i, j := i + 1, j + 1;
      } else if i < |p| && (p[i] == '*' || p[i] == '#') {
        ni, nj, i := i, j + 1, i + 1;
      } else if nj > 0 && nj <= |t| && (p[ni] == '#' || (if j < |t| then t[j] else past) != '/') {
        i, j := ni, nj;
      } else {
        AnswersStay(p, t, past, false, left);
        AnswerIsRight(p, t, past, goal, all);
        return false;
      }
    }
    AnswersStay(p, t, past, true, left - 1);
    AnswerIsRight(p, t, past, goal, all);
    return true;
  }

  lemma AnswerIsRight(p: string, t: string, past: char, b: bool, n: nat)
    requires Turns(p, t, past, START, n) == Answer(b)
    ensures b ==> Matches(p, t, 0, 0)
    ensures Apart(p, t) && StarsAreRuns(p, t, past) ==> (b <==> Matches(p, t, 0, 0))
    ensures Apart(p, t) && Right(p, past) ==> (b <==> SlashMatches(p, t, 0, 0))
  {
    if b {
      TrueMeansMatch(p, t, past, 0, 0, 0, 0, n);
    }
    if Apart(p, t) {
      var m, b' := Decides(p, t, past, 0, 0, 0, 0);
      OneAnswer(p, t, past, b, b', n, m);
    }
    if Apart(p, t) && Right(p, past) {
      var m: nat :| Turns(p, t, past, START, m) == Answer(SlashMatches(p, t, 0, 0));
      OneAnswer(p, t, past, b, SlashMatches(p, t, 0, 0), n, m);
    }
  }
}
