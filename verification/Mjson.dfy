// components/mongoose/examples/complete/mjson.c: the tokenizer loop with its nesting
// array, and the string functions around it.
module Mjson {
  import opened Bytes
  import opened MjsonText
  import opened MjsonGrammar
  import opened Wrappers

  const ESC_1: seq<byte> := [8, 12, 10, 13, 9, BACKSLASH, QUOTE]
  const ESC_2: seq<byte> := [98, 102, 110, 114, 116, BACKSLASH, QUOTE]

  /** mjson_esc */
  method Esc(c: byte, esc: bool) returns (r: byte)
    ensures r == if esc then EscapeLetter(c) else Escaped(c)
  {
    var table := if esc then ESC_1 else ESC_2;
    var p := 0;
    while p < |table|
      invariant p <= |table| && forall k :: 0 <= k < p ==> table[k] != c
    {
      if table[p] == c {
        assert p == 0 || p == 1 || p == 2 || p == 3 || p == 4 || p == 5 || p == 6;
        return if esc then ESC_2[p] else ESC_1[p];
      }
      p := p + 1;
    }
    assert table[0] != c && table[1] != c && table[2] != c && table[3] != c && table[4] != c && table[5] != c &&
           table[6] != c;
    r := 0;
  }

  /** How many backslashes stand directly in front of position `k`. */
  function Backslashes(s: seq<byte>, at: nat, k: nat): (n: nat)
    requires at <= k <= |s|
    decreases k
  {
    if k > at && s[k - 1] == BACKSLASH then 1 + Backslashes(s, at, k - 1) else 0
  }

  /** The first quote from `at` on with an even number of backslashes in front, and no zero before it. */
  predicate EndsString(s: seq<byte>, at: nat, q: nat) {
    && at <= q < |s| && s[q] == QUOTE && Backslashes(s, at, q) % 2 == 0
    && forall k :: at <= k < q ==> s[k] != 0 && (s[k] == QUOTE ==> Backslashes(s, at, k) % 2 == 1)
  }

  /** The scan, which skips one octet behind some backslashes only, finds just that quote. */
  lemma {:induction false} ClosingQuoteIsTheFirst(s: seq<byte>, at: nat, i: nat, q: nat)
    requires at <= i <= |s| && Backslashes(s, at, i) % 2 == 0
    requires forall k :: at <= k < i ==> s[k] != 0 && (s[k] == QUOTE ==> Backslashes(s, at, k) % 2 == 1)
    ensures ClosingQuote(s, i) == Some(q) <==> EndsString(s, at, q)
    decreases |s| - i
  {
    hide EscapeLetter;
    if i < |s| && s[i] != 0 && s[i] != QUOTE {
      if s[i] == BACKSLASH && i + 1 < |s| {
        EscapeLetterOfQuotes();
        if s[i + 1] != 0 {
          ClosingQuoteIsTheFirst(s, at, i + 2, q);
        } else {
          EscapedZero();
        }
      } else if s[i] != BACKSLASH {
        ClosingQuoteIsTheFirst(s, at, i + 1, q);
      }
    }
  }

  lemma EscapeLetterOfQuotes()
    ensures EscapeLetter(QUOTE) != 0 && EscapeLetter(BACKSLASH) != 0 && EscapeLetter(0) == 0
  {
  }

  /** mjson_pass_string, on the text from `at` on. */
  method PassString(s: seq<byte>, at: nat) returns (r: int)
    requires at <= |s|
    ensures r == match ClosingQuote(s, at) case Some(q) => q - at case None => INVALID_INPUT
    ensures r >= 0 ==> EndsString(s, at, at + r)
    ensures r < 0 ==> forall q: nat :: !EndsString(s, at, q)
  {
    forall q: nat ensures ClosingQuote(s, at) == Some(q) <==> EndsString(s, at, q) {
      ClosingQuoteIsTheFirst(s, at, at, q);
    }
    r := PassFrom(s, at);
  }

  method PassFrom(s: seq<byte>, at: nat) returns (r: int)
    requires at <= |s|
    ensures r == match ClosingQuote(s, at) case Some(q) => q - at case None => INVALID_INPUT
  {
    var i := at;
    while i < |s|
      invariant at <= i <= |s| && ClosingQuote(s, at) == ClosingQuote(s, i)
    {
      var letter := 0;
      if s[i] == BACKSLASH && i + 1 < |s| { letter := Esc(s[i + 1], true); }
      if letter != 0 {
        i := i + 1;
      } else if s[i] == 0 {
        return INVALID_INPUT;
      } else if s[i] == QUOTE {
        return i - at;
      }
      i := i + 1;
    }
    r := INVALID_INPUT;
  }

  /** What one token did: the call of the callback, if any, and whether mjson returned. */
  datatype Step = Stop(code: int, calls: seq<Event>) | More(call: Event, next: nat, expecting: Expecting, depth: nat)

  /** The step agrees with the automaton's move. */
  predicate Agrees(step: Step, m: Move, nesting: seq<byte>) {
    match step
    case Stop(code, calls) => m == Leave(Outcome(code, calls))
    case More(call, next, x, depth) => depth <= |nesting| && m == On(call, next, x, nesting[..depth])
  }

  /** MJSONEOO */
  method EndOfObject(i: nat, c: byte, nesting: array<byte>, depth: nat) returns (step: Step)
    requires 0 < depth <= nesting.Length
    ensures Agrees(step, CloseMove(i, c, nesting[..depth]), nesting[..])
    ensures step.More? ==> step.depth > 0
  {
    var want: int := nesting[depth - 1];
    if c != want + 2 { return Stop(INVALID_INPUT, []); }
    if depth - 1 == 0 { return Stop(i + 1, [Event(c, i, 1)]); }
    assert nesting[..depth][..depth - 1] == nesting[..depth - 1];
    return More(Event(c, i, 1), i + 1, CommaOrEnd, depth - 1);
  }

  method StringToken(s: seq<byte>, i: nat, tok: nat) returns (e: Option<Event>)
    requires i < |s| && s[i] == QUOTE
    ensures e == StringAt(s, i, tok)
  {
    var n := PassString(s, i + 1);
    e := if n < 0 then None else Some(Event(tok, i, n + 2));
  }

  /** The S_VALUE case behind the brackets. */
  method ScalarToken(s: seq<byte>, strtod: seq<nat>, i: nat) returns (e: Option<Event>)
    requires Numbers(s, strtod) && i < |s|
    ensures e == ScalarAt(s, strtod, i)
  {
    if i + 3 < |s| && s[i..i + 4] == [116, 114, 117, 101] {
      e := Some(Event(TOK_TRUE, i, 4));
    } else if i + 3 < |s| && s[i..i + 4] == [110, 117, 108, 108] {
      e := Some(Event(TOK_NULL, i, 4));
    } else if i + 4 < |s| && s[i..i + 5] == [102, 97, 108, 115, 101] {
      e := Some(Event(TOK_FALSE, i, 5));
    } else if s[i] == 45 || 48 <= s[i] <= 57 {
      e := Some(Event(TOK_NUMBER, i, strtod[i]));
    } else if s[i] == QUOTE {
      e := StringToken(s, i, TOK_STRING);
    } else {
      e := None;
    }
  }

  method ValueToken(s: seq<byte>, strtod: seq<nat>, i: nat, nesting: array<byte>, depth: nat) returns (step: Step)
    requires Numbers(s, strtod) && i < |s|
    requires nesting.Length == MAX_DEPTH && depth <= MAX_DEPTH
    modifies nesting
    ensures Agrees(step, ValueMove(s, strtod, i, old(nesting[..depth])), nesting[..])
    ensures step.More? ==> step.depth > 0
  {
    var c := s[i];
    if c == OPEN_OBJECT || c == OPEN_ARRAY {
      if depth >= nesting.Length { return Stop(TOO_DEEP, []); }
      nesting[depth] := c;
      return More(Event(c, i, 1), i + 1, if c == OPEN_OBJECT then Key else Value, depth + 1);
    } else if c == CLOSE_ARRAY && depth > 0 {
      step := EndOfObject(i, c, nesting, depth);
    } else {
      var e := ScalarToken(s, strtod, i);
      if e.None? { return Stop(INVALID_INPUT, []); }
      if depth == 0 { return Stop(e.value.End(), [e.value]); }
      return More(e.value, e.value.End(), CommaOrEnd, depth);
    }
  }

  /** The switch of the loop. */
  method OneToken(s: seq<byte>, strtod: seq<nat>, i: nat, x: Expecting, nesting: array<byte>, depth: nat)
      returns (step: Step)
    requires Numbers(s, strtod) && i < |s|
    requires nesting.Length == MAX_DEPTH && depth <= MAX_DEPTH
    requires x == Key || x == Colon ==> depth > 0
    modifies nesting
    ensures Agrees(step, TokenMove(s, strtod, i, x, old(nesting[..depth])), nesting[..])
    ensures step.More? ==> step.depth > 0
  {
    var c := s[i];
    match x {
      case Value => step := ValueToken(s, strtod, i, nesting, depth);
      case Key =>
        if c == QUOTE {
          var e := StringToken(s, i, TOK_KEY);
          return if e.None? then Stop(INVALID_INPUT, []) else More(e.value, e.value.End(), Colon, depth);
        } else if c == CLOSE_OBJECT {
          step := EndOfObject(i, c, nesting, depth);
        } else {
          return Stop(INVALID_INPUT, []);
        }
      case Colon =>
        return if c == COLON then More(Event(c, i, 1), i + 1, Value, depth) else Stop(INVALID_INPUT, []);
      case CommaOrEnd =>
        if depth <= 0 { return Stop(INVALID_INPUT, []); }
        if c == COMMA {
          return More(Event(c, i, 1), i + 1, if nesting[depth - 1] == OPEN_OBJECT then Key else Value, depth);
        } else if c == CLOSE_ARRAY || c == CLOSE_OBJECT {
          step := EndOfObject(i, c, nesting, depth);
        } else {
          return Stop(INVALID_INPUT, []);
        }
    }
  }

  /** mjson, with a callback that never stops it: what it returns and what the callback saw. */
  method Tokenize(s: seq<byte>, strtod: seq<nat>) returns (r: int, seen: seq<Event>)
    requires Numbers(s, strtod)
    ensures Outcome(r, seen) == Scan(s, strtod, 0, Value, [])
    ensures r >= 0 ==> exists t :: Finds(s, strtod, t) && r == EndOf(t) && seen == Tokens(t)
    ensures r < 0 ==> !exists t :: Finds(s, strtod, t)
    ensures r >= 0 ==> Unclosed(seen, []) == Some([])
  {
    hide TokenMove, Finds, Unclosed;
    var expecting := Value;
    var nesting := new byte[MAX_DEPTH];
    var i, depth := 0, 0;
    ghost var whole := Scan(s, strtod, 0, Value, []);
    seen := [];
    while i < |s|
      invariant i <= |s| && depth <= MAX_DEPTH
      invariant expecting == Key || expecting == Colon ==> depth > 0
      invariant whole == Seen(seen, Scan(s, strtod, i, expecting, nesting[..depth]))
      decreases |s| - i, if expecting == Value then 1 else 0
    {
      if IsSpace(s[i]) {
        i := i + 1;
        continue;
      }
      var step := OneToken(s, strtod, i, expecting, nesting, depth);
      match step {
        case Stop(code, calls) =>
          r, seen := code, seen + calls;
          TokenizeResult(s, strtod, r, seen);
          return;
        case More(call, next, x, d) =>
          SeenTwice(seen, [call], Scan(s, strtod, next, x, nesting[..d]));
          seen, i, expecting, depth := seen + [call], next, x, d;
      }
    }
    r := INVALID_INPUT;
    TokenizeResult(s, strtod, r, seen);
  }

  lemma TokenizeResult(s: seq<byte>, strtod: seq<nat>, r: int, seen: seq<Event>)
    requires Numbers(s, strtod) && Outcome(r, seen) == Scan(s, strtod, 0, Value, [])
    ensures r >= 0 ==> exists t :: Finds(s, strtod, t) && r == EndOf(t) && seen == Tokens(t)
    ensures r < 0 ==> !exists t :: Finds(s, strtod, t)
    ensures r >= 0 ==> Unclosed(seen, []) == Some([])
  {
    hide Scan, Finds, Unclosed;
    if r >= 0 {
      AcceptedExactly(s, strtod, r, seen);
      AcceptedMeansNested(s, strtod);
    } else {
      forall t | Finds(s, strtod, t)
        ensures false
      {
        AcceptedExactly(s, strtod, EndOf(t), Tokens(t));
      }
    }
  }

  // ----------------------------------------------------------------- strings

  function Escape(c: byte): (e: seq<byte>)
    ensures 1 <= |e| <= 2
  {
    if EscapeLetter(c) != 0 then [BACKSLASH, EscapeLetter(c)] else [c]
  }

  function Escapes(s: seq<byte>): (e: seq<byte>) {
    if |s| == 0 then [] else Escape(s[0]) + Escapes(s[1..])
  }

  /** The JSON string for `s`. */
  function Quoted(s: seq<byte>): (q: seq<byte>)
    ensures |q| == |Escapes(s)| + 2
  {
    [QUOTE] + Escapes(s) + [QUOTE]
  }

  /** What the text between the quotes means; nothing when a backslash stands before a letter that escapes nothing. */
  function Unescaped(s: seq<byte>): (u: Option<seq<byte>>) {
    if |s| == 0 then Some([])
    else if s[0] == BACKSLASH && |s| > 1 then
      if Escaped(s[1]) == 0 then None
      else Joined([Escaped(s[1])], Unescaped(s[2..]))
    else Joined([s[0]], Unescaped(s[1..]))
  }

  lemma EscapeIsUndone(c: byte)
    ensures EscapeLetter(c) != 0 ==> Escaped(EscapeLetter(c)) == c != 0
    ensures EscapeLetter(c) == 0 ==> c != BACKSLASH && c != QUOTE
    ensures EscapeLetter(EscapeLetter(c)) != 0 ==> EscapeLetter(c) == c
  {
  }

  lemma {:induction false} UnescapedEscapes(s: seq<byte>)
    ensures Unescaped(Escapes(s)) == Some(s)
  {
    hide EscapeLetter, Escaped;
    if |s| > 0 {
      UnescapedEscapes(s[1..]);
      EscapeIsUndone(s[0]);
      var e := Escapes(s);
      if EscapeLetter(s[0]) != 0 {
        assert e[2..] == Escapes(s[1..]);
      } else {
        assert e[1..] == Escapes(s[1..]);
      }
      assert s == [s[0]] + s[1..];
    }
  }

  lemma EscapeIsPassed(t: seq<byte>, i: nat, c: byte)
    requires c != 0 && i + |Escape(c)| < |t|
    requires t[i] == Escape(c)[0] && (|Escape(c)| == 2 ==> t[i + 1] == Escape(c)[1])
    ensures ClosingQuote(t, i) == ClosingQuote(t, i + |Escape(c)|)
  {
    hide EscapeLetter, Escaped;
    EscapeIsUndone(c);
    if EscapeLetter(c) != 0 {
      EscapeIsUndone(t[i + 1]);
      assert t[i] == BACKSLASH;
      if EscapeLetter(t[i + 1]) == 0 {
        assert ClosingQuote(t, i) == ClosingQuote(t, i + 1);
        assert t[i + 1] != 0 by { EscapeIsUndone(c); EscapedZero(); }
      }
    }
  }

  lemma EscapedZero()
    ensures Escaped(0) == 0
  {
  }

  /** In any text, the first quote that is not escaped is the closing one. */
  lemma {:induction false} QuoteIsFound(t: seq<byte>, i: nat, s: seq<byte>)
    requires 0 !in s && LiesAt(Escapes(s) + [QUOTE], t, i)
    ensures ClosingQuote(t, i) == Some(i + |Escapes(s)|)
    decreases |s|
  {
    PartsLieAt(Escapes(s), [QUOTE], t, i);
    assert t[i + |Escapes(s)| + 0] == [QUOTE][0];
    if |s| > 0 {
      var c := Escape(s[0]);
      var rest := Escapes(s[1..]) + [QUOTE];
      assert Escapes(s) + [QUOTE] == c + rest;
      PartsLieAt(c, rest, t, i);
      EscapeIsPassed(t, i, s[0]);
      hide Escape, ClosingQuote, LiesAt;
      QuoteIsFound(t, i + |c|, s[1..]);
    }
  }

  /** What mjson_print_str writes is, wherever it stands, one string token whose text means `s` again. */
  lemma StringRoundTrip(t: seq<byte>, i: nat, s: seq<byte>, tok: nat)
    requires 0 !in s && LiesAt(Quoted(s), t, i)
    ensures StringAt(t, i, tok) == Some(Event(tok, i, |Quoted(s)|))
    ensures t[i + 1..i + |Quoted(s)| - 1] == Escapes(s) && Unescaped(t[i + 1..i + |Quoted(s)| - 1]) == Some(s)
  {
    hide ClosingQuote, Escapes, Unescaped;
    var e := Escapes(s) + [QUOTE];
    assert Quoted(s) == [QUOTE] + e;
    PartsLieAt([QUOTE], e, t, i);
    assert t[i + 0] == [QUOTE][0];
    PartsLieAt(Escapes(s), [QUOTE], t, i + 1);
    QuoteIsFound(t, i + 1, s);
    UnescapedEscapes(s);
    assert t[i + 1..i + 1 + |Escapes(s)|] == Escapes(s);
  }

  lemma EscapesFrom(s: seq<byte>, i: nat, out: seq<byte>)
    requires i < |s|
    ensures out + Escapes(s[i..]) == (out + Escape(s[i])) + Escapes(s[i + 1..])
  {
    hide Escape;
    assert s[i..][1..] == s[i + 1..];
    assert out + (Escape(s[i]) + Escapes(s[i + 1..])) == (out + Escape(s[i])) + Escapes(s[i + 1..]);
  }

  /** mjson_print_str */
  method PrintStr(s: seq<byte>) returns (n: nat, out: seq<byte>)
    ensures out == Quoted(s) && n == |out|
  {
    hide Escapes;
    out, n := [QUOTE], 1;
    assert s[0..] == s && Escapes([]) == [] by { NoEscapes(); }
    var i := 0;
    while i < |s|
      invariant i <= |s| && n == |out|
      invariant out + Escapes(s[i..]) == [QUOTE] + Escapes(s)
    {
      var c := Esc(s[i], true);
      ghost var before := out;
      if c != 0 {
        out, n := out + [BACKSLASH] + [c], n + 2;
      } else {
        out, n := out + [s[i]], n + 1;
      }
      assert out == before + Escape(s[i]);
      EscapesFrom(s, i, before);
      i := i + 1;
    }
    assert s[i..] == [] && out == [QUOTE] + Escapes(s);
    out, n := out + [QUOTE], n + 1;
  }

  lemma NoEscapes()
    ensures Escapes([]) == []
  {
  }

  function Joined(a: seq<byte>, u: Option<seq<byte>>): (r: Option<seq<byte>>) {
    match u case None => None case Some(b) => Some(a + b)
  }

  lemma JoinedTwice(a: seq<byte>, b: seq<byte>, u: Option<seq<byte>>)
    ensures Joined(a, Joined(b, u)) == Joined(a + b, u)
  {
    if u.Some? {
      assert a + (b + u.value) == (a + b) + u.value;
    }
  }

  lemma JoinedNothing(u: Option<seq<byte>>)
    ensures Joined([], u) == u
  {
    if u.Some? {
      assert [] + u.value == u.value;
    }
  }

  /** mjson_unescape: the meaning when there is one and it fits with its terminator, else -1. */
  method Unescape(s: seq<byte>, to: array<byte>) returns (r: int)
    modifies to
    ensures Unescaped(s).Some? && |Unescaped(s).value| < to.Length ==>
              r == |Unescaped(s).value| && to[..r] == Unescaped(s).value && to[r] == 0
    ensures !(Unescaped(s).Some? && |Unescaped(s).value| < to.Length) ==> r == -1
  {
    hide Escaped;
    var i, j := 0, 0;
    assert s[0..] == s && Joined(to[..0], Unescaped(s)) == Unescaped(s) by { JoinedNothing(Unescaped(s)); }
    while i < |s| && j < to.Length
      invariant i <= |s| && j <= to.Length
      invariant Unescaped(s) == Joined(to[..j], Unescaped(s[i..]))
    {
      ghost var was := to[..j];
      if s[i] == BACKSLASH && i + 1 < |s| {
        var c := Esc(s[i + 1], false);
        if c == 0 { return -1; }
        assert s[i..][2..] == s[i + 2..];
        JoinedTwice(was, [c], Unescaped(s[i + 2..]));
        to[j] := c;
        i := i + 1;
      } else {
        assert s[i..][1..] == s[i + 1..];
        JoinedTwice(was, [s[i]], Unescaped(s[i + 1..]));
        to[j] := s[i];
      }
      assert to[..j + 1] == was + [to[j]];
      i := i + 1;
      j := j + 1;
    }
    if j >= to.Length { return -1; }
    to[j] := 0;
    r := j;
  }
}
