// What the tokens reported by the tokenizer say of the text: of their own octets, and of
// those between them; and which of its errors it returns.
module MjsonTokens {
  import opened Bytes
  import opened MjsonText
  import opened MjsonGrammar
  import opened Mjson
  import opened Wrappers

  const TRUE: seq<byte> := ['t' as int, 'r' as int, 'u' as int, 'e' as int]
  const FALSE: seq<byte> := ['f' as int, 'a' as int, 'l' as int, 's' as int, 'e' as int]
  const NULL: seq<byte> := ['n' as int, 'u' as int, 'l' as int, 'l' as int]

  predicate StartsNumber(c: byte) {
    c == '-' as int || '0' as int <= c <= '9' as int
  }

  predicate IsMark(c: nat) {
    c == '[' as int || c == ']' as int || c == '{' as int || c == '}' as int || c == ':' as int || c == ',' as int
  }

  // ------------------------------------------------------------------- one token

  predicate Stands(s: seq<byte>, i: nat, w: seq<byte>) {
    i + |w| <= |s| && s[i..i + |w|] == w
  }

  /** The scalars as text, in the codes of mjson.h. */
  predicate ScalarText(s: seq<byte>, strtod: seq<nat>, i: nat, e: Event)
    requires i < |s| == |strtod|
  {
    || (e == Event(13, i, 4) && Stands(s, i, TRUE))
    || (e == Event(14, i, 5) && Stands(s, i, FALSE))
    || (e == Event(15, i, 4) && Stands(s, i, NULL))
    || (e == Event(12, i, strtod[i]) && StartsNumber(s[i]))
    || (e.tok == 11 && e.off == i && e.len >= 2 && s[i] == '"' as int && EndsString(s, i + 1, i + e.len - 1))
  }

  lemma StringAtExactly(s: seq<byte>, i: nat, tok: nat, e: Event)
    requires i < |s|
    ensures StringAt(s, i, tok) == Some(e) <==>
              e.tok == tok && e.off == i && e.len >= 2 && s[i] == '"' as int && EndsString(s, i + 1, i + e.len - 1)
  {
    hide ClosingQuote;
    if s[i] == QUOTE {
      var q := i + e.len - 1;
      if e.len >= 2 {
        ClosingQuoteIsTheFirst(s, i + 1, i + 1, q);
      }
      match ClosingQuote(s, i + 1)
      case None =>
      case Some(q') => ClosingQuoteIsTheFirst(s, i + 1, i + 1, q');
    }
  }

  /** The table of scalars, both ways. */
  lemma ScalarAtExactly(s: seq<byte>, strtod: seq<nat>, i: nat, e: Event)
    requires i < |s| && Numbers(s, strtod)
    ensures ScalarAt(s, strtod, i) == Some(e) <==> ScalarText(s, strtod, i, e)
  {
    hide StringAt, EndsString;
    StringAtExactly(s, i, 11, e);
    FirstLetter(s, i, TRUE);
    FirstLetter(s, i, FALSE);
    FirstLetter(s, i, NULL);
  }

  lemma FirstLetter(s: seq<byte>, i: nat, w: seq<byte>)
    requires i < |s| && w != []
    ensures Stands(s, i, w) <==> WordAt(s, i, w)
    ensures Stands(s, i, w) ==> s[i] == w[0]
  {
  }

  /** Wherever a value is expected, a scalar's text is reported as that scalar and passed. */
  lemma ScalarIsReported(s: seq<byte>, strtod: seq<nat>, i: nat, e: Event, open: seq<byte>)
    requires Numbers(s, strtod) && i <= |s| && Skip(s, i) < |s| && ScalarText(s, strtod, Skip(s, i), e)
    ensures e.End() <= |s|
    ensures Scan(s, strtod, i, Value, open) ==
              if |open| == 0 then Outcome(e.End(), [e]) else Seen([e], Scan(s, strtod, e.End(), CommaOrEnd, open))
  {
    hide Scan, ScalarAt, ScalarText, Skip;
    ScalarAtExactly(s, strtod, Skip(s, i), e);
    ScalarStep(s, strtod, i, e, open);
  }

  // -------------------------------------------------------------- what tokens tell

  /** A token's code is told by its text, and its text by its code. */
  predicate TellsText(s: seq<byte>, strtod: seq<nat>, e: Event) {
    && e.off < |s| == |strtod| && e.End() <= |s|
    && (e.tok == 13 <==> s[e.off..e.End()] == TRUE)
    && (e.tok == 14 <==> s[e.off..e.End()] == FALSE)
    && (e.tok == 15 <==> s[e.off..e.End()] == NULL)
    && (e.tok == 12 <==> StartsNumber(s[e.off])) && (e.tok == 12 ==> e.len == strtod[e.off])
    && (e.tok == 11 || e.tok == 1 <==> s[e.off] == '"' as int)
    && (e.tok == 11 || e.tok == 1 ==> e.len >= 2 && EndsString(s, e.off + 1, e.End() - 1))
    && (IsMark(e.tok) <==> IsMark(s[e.off])) && (IsMark(e.tok) ==> e.tok == s[e.off] && e.len == 1)
  }

  predicate Gap(s: seq<byte>, lo: nat, hi: nat) {
    lo <= hi <= |s| && forall k :: lo <= k < hi ==> s[k] == 32 || s[k] == 9 || s[k] == 10 || s[k] == 13
  }

  /** Between two tokens there is whitespace only, and a string is a key exactly when a colon follows. */
  predicate Follows(s: seq<byte>, e: Event, f: Event) {
    Gap(s, e.End(), f.off) && (e.tok == 1 <==> f.tok == ':' as int)
  }

  /** From `i` on the text is these tokens and whitespace. */
  ghost predicate Tell(s: seq<byte>, strtod: seq<nat>, i: nat, ev: seq<Event>) {
    && (ev != [] ==> Gap(s, i, ev[0].off))
    && (forall k :: 0 <= k < |ev| ==> TellsText(s, strtod, ev[k]))
    && (forall k :: 0 < k < |ev| ==> Follows(s, ev[k - 1], ev[k]))
  }

  lemma TellOne(s: seq<byte>, strtod: seq<nat>, e: Event)
    requires TellsText(s, strtod, e)
    ensures Tell(s, strtod, e.off, [e])
  {
  }

  lemma TellOnwards(s: seq<byte>, strtod: seq<nat>, e: Event, ev: seq<Event>)
    requires e.off <= |s| && TellsText(s, strtod, e) && Tell(s, strtod, e.End(), ev)
    requires ev != [] ==> (e.tok == 1 <==> ev[0].tok == ':' as int)
    ensures Tell(s, strtod, e.off, [e] + ev)
  {
    hide TellsText;
    forall k | 0 < k < |[e] + ev| ensures Follows(s, ([e] + ev)[k - 1], ([e] + ev)[k]) {
      if k > 1 {
        assert Follows(s, ev[k - 2], ev[k - 1]);
      }
    }
  }

  lemma TellBehindSpace(s: seq<byte>, strtod: seq<nat>, i: nat, ev: seq<Event>)
    requires i < |s| && IsSpace(s[i]) && Tell(s, strtod, i + 1, ev)
    ensures Tell(s, strtod, i, ev)
  {
    hide TellsText, Follows;
  }

  lemma ScalarTellsText(s: seq<byte>, strtod: seq<nat>, i: nat, e: Event)
    requires Numbers(s, strtod) && i < |s| && ScalarText(s, strtod, i, e)
    ensures TellsText(s, strtod, e)
  {
    hide EndsString;
    if e.tok == 11 {
      EndsWithin(s, i + 1, i + e.len - 1);
    }
    assert e.len > 0 ==> s[e.off..e.End()][0] == s[i];
  }

  lemma EndsWithin(s: seq<byte>, at: nat, q: nat)
    requires EndsString(s, at, q)
    ensures at <= q < |s|
  {
  }

  lemma KeyTellsText(s: seq<byte>, strtod: seq<nat>, i: nat, e: Event)
    requires Numbers(s, strtod) && i < |s| && StringAt(s, i, 1) == Some(e)
    ensures TellsText(s, strtod, e)
  {
    hide StringAt, EndsString;
    StringAtExactly(s, i, 1, e);
    EndsWithin(s, i + 1, e.End() - 1);
    assert s[e.off..e.End()][0] == s[i];
  }

  lemma MarkTellsText(s: seq<byte>, strtod: seq<nat>, i: nat)
    requires Numbers(s, strtod) && i < |s| && IsMark(s[i])
    ensures TellsText(s, strtod, Event(s[i], i, 1))
  {
    hide EndsString;
    assert |s[i..i + 1]| == 1;
  }

  /** What one token of the run says. */
  predicate TellsAt(s: seq<byte>, strtod: seq<nat>, i: nat, x: Expecting, e: Event) {
    TellsText(s, strtod, e) && e.off == i && (e.tok == ':' as int <==> x == Colon)
  }

  predicate MoveTells(s: seq<byte>, strtod: seq<nat>, i: nat, x: Expecting, m: Move) {
    match m
    case On(e, j, x', _) => TellsAt(s, strtod, i, x, e) && e.End() == j && (e.tok == 1 <==> x' == Colon)
    case Leave(o) =>
      || (o.code < 0 && o.seen == [])
      || (|o.seen| == 1 && TellsAt(s, strtod, i, x, o.seen[0]) && o.seen[0].tok != 1 && o.code == o.seen[0].End())
  }

  lemma ScalarMoveTells(s: seq<byte>, strtod: seq<nat>, i: nat, open: seq<byte>)
    requires Numbers(s, strtod) && i < |s|
    ensures MoveTells(s, strtod, i, Value, ValueMove(s, strtod, i, open))
  {
    hide ScalarAt, ScalarText, TellsText;
    if IsMark(s[i]) { MarkTellsText(s, strtod, i); }
    match ScalarAt(s, strtod, i)
    case None =>
    case Some(e) =>
      ScalarAtExactly(s, strtod, i, e);
      ScalarTellsText(s, strtod, i, e);
  }

  lemma AnyMoveTells(s: seq<byte>, strtod: seq<nat>, i: nat, x: Expecting, open: seq<byte>)
    requires Numbers(s, strtod) && i < |s|
    ensures MoveTells(s, strtod, i, x, TokenMove(s, strtod, i, x, open))
  {
    hide StringAt, TellsText, ValueMove;
    if IsMark(s[i]) { MarkTellsText(s, strtod, i); }
    if x == Value { ScalarMoveTells(s, strtod, i, open); }
    match StringAt(s, i, 1)
    case None =>
    case Some(e) => KeyTellsText(s, strtod, i, e);
  }

  ghost predicate RunTells(s: seq<byte>, strtod: seq<nat>, i: nat, x: Expecting, o: Outcome) {
    && Tell(s, strtod, i, o.seen)
    && (o.seen != [] ==> (o.seen[0].tok == ':' as int <==> x == Colon))
    && (o.code >= 0 ==> o.seen != [] && o.seen[|o.seen| - 1].End() == o.code && o.seen[|o.seen| - 1].tok != 1)
  }

  lemma RunGoesOn(s: seq<byte>, strtod: seq<nat>, i: nat, x: Expecting, m: Move, o: Outcome)
    requires i <= |s| && m.On? && MoveTells(s, strtod, i, x, m) && RunTells(s, strtod, m.j, m.x, o)
    ensures RunTells(s, strtod, i, x, Seen([m.e], o))
  {
    hide TellsText, Tell;
    TellOnwards(s, strtod, m.e, o.seen);
  }

  lemma RunLeaves(s: seq<byte>, strtod: seq<nat>, i: nat, x: Expecting, o: Outcome)
    requires MoveTells(s, strtod, i, x, Leave(o))
    ensures RunTells(s, strtod, i, x, o)
  {
    hide TellsText;
    if o.seen != [] {
      TellOne(s, strtod, o.seen[0]);
      assert o.seen == [o.seen[0]];
    }
  }

  lemma {:induction false} AnyRunTells(s: seq<byte>, strtod: seq<nat>, i: nat, x: Expecting, open: seq<byte>)
    requires Numbers(s, strtod) && i <= |s|
    ensures RunTells(s, strtod, i, x, Scan(s, strtod, i, x, open))
    decreases |s| - i, if x == Value then 1 else 0
  {
    hide TokenMove, MoveTells, Tell, Seen;
    if i == |s| {
      NothingTells(s, strtod, i);
    } else if IsSpace(s[i]) {
      AnyRunTells(s, strtod, i + 1, x, open);
      TellBehindSpace(s, strtod, i, Scan(s, strtod, i + 1, x, open).seen);
    } else {
      AnyMoveTells(s, strtod, i, x, open);
      match TokenMove(s, strtod, i, x, open)
      case Leave(o) => RunLeaves(s, strtod, i, x, o);
      case On(e, j, x', open') =>
        AnyRunTells(s, strtod, j, x', open');
        RunGoesOn(s, strtod, i, x, On(e, j, x', open'), Scan(s, strtod, j, x', open'));
    }
  }

  lemma NothingTells(s: seq<byte>, strtod: seq<nat>, i: nat)
    ensures Tell(s, strtod, i, [])
  {
  }

  /**
   * Of every text, accepted or not, the tokens reported account for all octets up to the last of them:
   * each belongs to a token whose code tells its text, and whose text tells its code, or is whitespace.
   * An accepted text ends with its last token.
   */
  lemma TokensTellTheText(s: seq<byte>, strtod: seq<nat>)
    requires Numbers(s, strtod)
    ensures var o := Scan(s, strtod, 0, Value, []);
            && Tell(s, strtod, 0, o.seen)
            && (o.code >= 0 ==> o.seen != [] && o.seen[|o.seen| - 1].End() == o.code && o.seen[|o.seen| - 1].tok != 1)
  {
    hide Scan, Tell;
    AnyRunTells(s, strtod, 0, Value, []);
  }

  // ---------------------------------------------------------------- the two errors

  /** The brackets left open by a token. */
  function Opened(open: seq<byte>, tok: nat): (open': seq<byte>) {
    if tok == '[' as int || tok == '{' as int then open + [tok]
    else if (tok == ']' as int || tok == '}' as int) && open != [] then open[..|open| - 1]
    else open
  }

  /** What has to come behind a token. */
  function Wanted(open: seq<byte>, tok: nat): (x: Expecting) {
    if tok == '{' as int then Key
    else if tok == '[' as int || tok == ':' as int then Value
    else if tok == ',' as int then (if open != [] && open[|open| - 1] == '{' as int then Key else Value)
    else if tok == 1 then Colon
    else CommaOrEnd
  }

  datatype Standing = Standing(at: nat, x: Expecting, open: seq<byte>)

  /** Where the tokens lead: behind the last of them, what is wanted there, and the brackets left open. */
  function Led(from: Standing, ev: seq<Event>): (to: Standing)
    decreases |ev|
  {
    if ev == [] then from
    else
      var open := Opened(from.open, ev[0].tok);
      Led(Standing(ev[0].End(), Wanted(open, ev[0].tok), open), ev[1..])
  }

  /** A twenty-first opening bracket where a value is wanted. */
  predicate OneTooMany(s: seq<byte>, to: Standing) {
    && to.at <= |s| && to.x == Value && |to.open| >= 20
    && var k := Skip(s, to.at); k < |s| && (s[k] == '[' as int || s[k] == '{' as int)
  }

  predicate FailsRightly(s: seq<byte>, o: Outcome, from: Standing) {
    o.code < 0 ==> o.code == if OneTooMany(s, Led(from, o.seen)) then -2 else -1
  }

  predicate MoveLeads(s: seq<byte>, i: nat, x: Expecting, open: seq<byte>, m: Move) {
    match m
    case On(e, j, x', open') => e.End() == j && open' == Opened(open, e.tok) && x' == Wanted(open', e.tok)
    case Leave(o) => FailsRightly(s, o, Standing(i, x, open))
  }

  lemma AnyMoveLeads(s: seq<byte>, strtod: seq<nat>, i: nat, x: Expecting, open: seq<byte>)
    requires Numbers(s, strtod) && i < |s| && !IsSpace(s[i])
    ensures MoveLeads(s, i, x, open, TokenMove(s, strtod, i, x, open))
  {
    hide StringAt, ScalarAt;
    assert Skip(s, i) == i;
  }

  lemma {:induction false} AnyRunFailsRightly(s: seq<byte>, strtod: seq<nat>, i: nat, x: Expecting, open: seq<byte>)
    requires Numbers(s, strtod) && i <= |s|
    ensures FailsRightly(s, Scan(s, strtod, i, x, open), Standing(i, x, open))
    decreases |s| - i, if x == Value then 1 else 0
  {
    hide TokenMove, OneTooMany;
    if i == |s| {
      NothingMore(s, Standing(i, x, open));
    } else if IsSpace(s[i]) {
      AnyRunFailsRightly(s, strtod, i + 1, x, open);
      SpaceLeads(s, i, x, open, Scan(s, strtod, i + 1, x, open).seen);
    } else {
      AnyMoveLeads(s, strtod, i, x, open);
      match TokenMove(s, strtod, i, x, open)
      case Leave(o) =>
      case On(e, j, x', open') =>
        AnyRunFailsRightly(s, strtod, j, x', open');
        var ev := Scan(s, strtod, j, x', open').seen;
        assert ([e] + ev)[1..] == ev;
    }
  }

  lemma NothingMore(s: seq<byte>, to: Standing)
    requires to.at == |s|
    ensures !OneTooMany(s, to)
  {
  }

  lemma SpaceLeads(s: seq<byte>, i: nat, x: Expecting, open: seq<byte>, ev: seq<Event>)
    requires i < |s| && IsSpace(s[i])
    ensures OneTooMany(s, Led(Standing(i, x, open), ev)) <==> OneTooMany(s, Led(Standing(i + 1, x, open), ev))
  {
    assert Skip(s, i) == Skip(s, i + 1);
  }

  /** A refused text is too deep exactly when, by its tokens, a twenty-first bracket is about to be opened. */
  lemma RefusedExactly(s: seq<byte>, strtod: seq<nat>)
    requires Numbers(s, strtod)
    ensures var o := Scan(s, strtod, 0, Value, []);
            o.code < 0 ==> o.code == if OneTooMany(s, Led(Standing(0, Value, []), o.seen)) then -2 else -1
  {
    hide Scan, OneTooMany;
    AnyRunFailsRightly(s, strtod, 0, Value, []);
  }

  // ---------------------------------------------------------------- the escapes

  /** Backspace, form feed, line feed, carriage return, tabulator, backslash and quote have an escape, no other. */
  lemma EscapesAre(c: byte)
    ensures EscapeLetter(c) ==
              if c == 8 then 'b' as int else if c == 12 then 'f' as int else if c == 10 then 'n' as int
              else if c == 13 then 'r' as int else if c == 9 then 't' as int
              else if c == '\\' as int || c == '"' as int then c else 0
  {
  }

  /** What stands behind a backslash, and what it means. */
  function EscapeMeans(l: byte): (c: Option<byte>) {
    if l == 'b' as int then Some(8) else if l == 'f' as int then Some(12) else if l == 'n' as int then Some(10)
    else if l == 'r' as int then Some(13) else if l == 't' as int then Some(9)
    else if l == '\\' as int || l == '"' as int then Some(l) else None
  }

  /** Text without a backslash means itself. */
  lemma {:induction false} PlainMeansItself(a: seq<byte>, b: seq<byte>)
    requires '\\' as int !in a
    ensures Unescaped(a + b) == Joined(a, Unescaped(b))
  {
    if a == [] {
      assert a + b == b;
      JoinedNothing(Unescaped(b));
    } else {
      assert (a + b)[1..] == a[1..] + b;
      PlainMeansItself(a[1..], b);
      JoinedTwice([a[0]], a[1..], Unescaped(b));
      assert [a[0]] + a[1..] == a;
    }
  }

  lemma BackslashInFront(l: byte, b: seq<byte>)
    ensures Unescaped(['\\' as int, l] + b) ==
              match EscapeMeans(l) case None => None case Some(c) => Joined([c], Unescaped(b))
  {
    var e := ['\\' as int, l] + b;
    assert e[0] == '\\' as int && e[1] == l && e[2..] == b;
  }

  lemma BackslashAlone()
    ensures Unescaped([]) == Some([]) && Unescaped(['\\' as int]) == Some(['\\' as int])
  {
    var e := ['\\' as int];
    assert e[1..] == [] && [e[0]] + [] == e && Unescaped(e) == Joined([e[0]], Unescaped([]));
  }

  /**
   * The first backslash of a string and the octet behind it mean one octet, or spoil the whole; at the
   * very end a backslash stands for itself.
   */
  lemma BackslashMeans(a: seq<byte>, l: byte, b: seq<byte>)
    requires '\\' as int !in a
    ensures Unescaped(a) == Some(a) && Unescaped(a + ['\\' as int]) == Some(a + ['\\' as int])
    ensures Unescaped(a + (['\\' as int, l] + b)) ==
              match EscapeMeans(l) case None => None case Some(c) => Joined(a + [c], Unescaped(b))
  {
    hide Unescaped, EscapeMeans;
    var e := ['\\' as int, l] + b;
    assert a + [] == a;
    BackslashInFront(l, b);
    BackslashAlone();
    PlainMeansItself(a, []);
    PlainMeansItself(a, ['\\' as int]);
    PlainMeansItself(a, e);
    match EscapeMeans(l)
    case None =>
    case Some(c) => JoinedTwice(a, [c], Unescaped(b));
  }
}
