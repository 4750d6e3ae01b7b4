// The tokenizer accepts exactly the texts of the grammar, up to the nesting it has
// room for, and reports exactly their tokens.
module MjsonGrammar {
  import opened Bytes
  import opened MjsonText
  import opened Wrappers

  lemma {:induction false} ScanSkips(s: seq<byte>, strtod: seq<nat>, i: nat, x: Expecting, open: seq<byte>)
    requires Numbers(s, strtod) && i <= |s|
    ensures Scan(s, strtod, i, x, open) == Scan(s, strtod, Skip(s, i), x, open)
    decreases |s| - i
  {
    if i < |s| && IsSpace(s[i]) {
      ScanSkips(s, strtod, i + 1, x, open);
      assert Scan(s, strtod, i, x, open) == Scan(s, strtod, i + 1, x, open);
    }
  }

  /** The run behind a closing bracket. */
  function Closed(s: seq<byte>, strtod: seq<nat>, j: nat, open: seq<byte>): (o: Outcome)
    requires Numbers(s, strtod) && j <= |s| && |open| > 0
  {
    if |open| == 1 then Outcome(j, []) else Scan(s, strtod, j, CommaOrEnd, open[..|open| - 1])
  }

  /** The run from a value whose text is `t`. */
  function AfterValue(s: seq<byte>, strtod: seq<nat>, t: Tree, open: seq<byte>): (o: Outcome)
    requires Numbers(s, strtod) && EndOf(t) <= |s|
  {
    if |open| == 0 then Outcome(EndOf(t), Tokens(t)) else Seen(Tokens(t), Scan(s, strtod, EndOf(t), CommaOrEnd, open))
  }

  lemma SeenTwice(a: seq<Event>, b: seq<Event>, o: Outcome)
    ensures Seen(a, Seen(b, o)) == Seen(a + b, o)
  {
    assert a + (b + o.seen) == (a + b) + o.seen;
  }

  lemma SeenInTurn(a: seq<Event>, b: seq<Event>, c: seq<Event>, d: seq<Event>, o: Outcome)
    ensures Seen(a, Seen(b, Seen(c + d, o))) == Seen(a + b + c + d, o)
  {
    assert a + (b + ((c + d) + o.seen)) == (a + b + c + d) + o.seen;
  }

  // ---------------------------------------------------- single steps of the run

  /** The next token decides how the run goes on. */
  lemma ScanMoves(s: seq<byte>, strtod: seq<nat>, i: nat, x: Expecting, open: seq<byte>)
    requires Numbers(s, strtod) && i <= |s|
    ensures Skip(s, i) == |s| ==> Scan(s, strtod, i, x, open) == Failure(INVALID_INPUT)
    ensures Skip(s, i) < |s| ==>
              Scan(s, strtod, i, x, open) ==
              match TokenMove(s, strtod, Skip(s, i), x, open)
              case Leave(o) => o
              case On(e, j, x', open') => Seen([e], Scan(s, strtod, j, x', open'))
  {
    hide TokenMove, Seen;
    ScanSkips(s, strtod, i, x, open);
  }

  lemma OpenStep(s: seq<byte>, strtod: seq<nat>, i: nat, o: Event, c: byte, open: seq<byte>)
    requires Numbers(s, strtod) && MarkAt(s, i, o, c) && (c == OPEN_ARRAY || c == OPEN_OBJECT)
    ensures Scan(s, strtod, i, Value, open) ==
            if |open| >= MAX_DEPTH then Failure(TOO_DEEP)
            else Seen([o], Scan(s, strtod, o.End(), if c == OPEN_OBJECT then Key else Value, open + [c]))
  {
    hide Scan, Skip, ScalarAt, StringAt, Seen;
    ScanMoves(s, strtod, i, Value, open);
  }

  lemma ScalarStep(s: seq<byte>, strtod: seq<nat>, i: nat, e: Event, open: seq<byte>)
    requires Numbers(s, strtod) && Spelled(s, strtod, i, Scalar(e))
    ensures Scan(s, strtod, i, Value, open) == AfterValue(s, strtod, Scalar(e), open)
  {
    hide Scan, Skip, ScalarAt, StringAt, Seen;
    ScanMoves(s, strtod, i, Value, open);
  }

  /** A closing bracket where the run looks for a comma, or for the first entry of a list. */
  lemma CloseStep(s: seq<byte>, strtod: seq<nat>, i: nat, e: Event, c: byte, x: Expecting, open: seq<byte>)
    requires Numbers(s, strtod) && MarkAt(s, i, e, c) && |open| > 0 && Closes(c, open)
    requires c == CLOSE_ARRAY || c == CLOSE_OBJECT
    requires x == CommaOrEnd || x == if c == CLOSE_ARRAY then Value else Key
    ensures Scan(s, strtod, i, x, open) == Seen([e], Closed(s, strtod, e.End(), open))
  {
    hide Scan, Skip, ScalarAt, StringAt;
    ScanMoves(s, strtod, i, x, open);
  }

  lemma CommaStep(s: seq<byte>, strtod: seq<nat>, i: nat, e: Event, open: seq<byte>)
    requires Numbers(s, strtod) && MarkAt(s, i, e, COMMA) && |open| > 0
    ensures Scan(s, strtod, i, CommaOrEnd, open) ==
            Seen([e], Scan(s, strtod, e.End(), if open[|open| - 1] == OPEN_OBJECT then Key else Value, open))
  {
    hide Scan, Skip, ScalarAt, StringAt, Seen;
    ScanMoves(s, strtod, i, CommaOrEnd, open);
  }

  lemma PairStep(s: seq<byte>, strtod: seq<nat>, i: nat, key: Event, colon: Event, open: seq<byte>)
    requires Numbers(s, strtod) && PairAt(s, i, key, colon)
    ensures Scan(s, strtod, i, Key, open) == Seen([key, colon], Scan(s, strtod, colon.End(), Value, open))
  {
    hide Scan, Skip, ScalarAt, StringAt, Seen;
    ScanMoves(s, strtod, i, Key, open);
    ScanMoves(s, strtod, key.End(), Colon, open);
    SeenTwice([key], [colon], Scan(s, strtod, colon.End(), Value, open));
    assert [key] + [colon] == [key, colon];
  }

  // --------------------------------------------- the texts of the grammar are accepted

  lemma {:induction false} ValueIsScanned(s: seq<byte>, strtod: seq<nat>, i: nat, t: Tree, open: seq<byte>)
    requires Numbers(s, strtod) && i <= |s| && Spelled(s, strtod, i, t) && |open| + Height(t) <= MAX_DEPTH
    ensures Scan(s, strtod, i, Value, open) == AfterValue(s, strtod, t, open)
    decreases t, 0
  {
    hide Scan, ScalarAt, StringAt, Skip, MarkAt;
    match t {
      case Scalar(e) => ScalarStep(s, strtod, i, e, open);
      case Array(o, items, c) =>
        ArrayIsScanned(s, strtod, i, o, items, c, open);
      case Object(o, members, c) =>
        ObjectIsScanned(s, strtod, i, o, members, c, open);
    }
  }

  lemma {:induction false} ArrayIsScanned(s: seq<byte>, strtod: seq<nat>, i: nat, o: Event, items: Items, c: Event,
      open: seq<byte>)
    requires Numbers(s, strtod) && i <= |s| && Spelled(s, strtod, i, Array(o, items, c)) &&
             |open| + 1 + ItemsHeight(items) <= MAX_DEPTH
    ensures Scan(s, strtod, i, Value, open) == AfterValue(s, strtod, Array(o, items, c), open)
    decreases items, 1
  {
    hide Scan, ScalarAt, StringAt, Skip, MarkAt;
    var open' := open + [OPEN_ARRAY];
    OpenStep(s, strtod, i, o, OPEN_ARRAY, open);
    MarkEnds(s, i, o, OPEN_ARRAY);
    MarkEnds(s, ItemsEnd(o.End(), items), c, CLOSE_ARRAY);
    ItemsAreScanned(s, strtod, o.End(), items, c, open');
    var last := Closed(s, strtod, c.End(), open');
    assert open'[..|open'| - 1] == open;
    SeenTwice([o], ItemTokens(items) + [c], last);
    assert [o] + (ItemTokens(items) + [c]) == Tokens(Array(o, items, c));
  }

  lemma {:induction false} ObjectIsScanned(s: seq<byte>, strtod: seq<nat>, i: nat, o: Event, members: Members,
      c: Event, open: seq<byte>)
    requires Numbers(s, strtod) && i <= |s| && Spelled(s, strtod, i, Object(o, members, c)) &&
             |open| + 1 + MembersHeight(members) <= MAX_DEPTH
    ensures Scan(s, strtod, i, Value, open) == AfterValue(s, strtod, Object(o, members, c), open)
    decreases members, 1
  {
    hide Scan, ScalarAt, StringAt, Skip, MarkAt;
    var open' := open + [OPEN_OBJECT];
    OpenStep(s, strtod, i, o, OPEN_OBJECT, open);
    MarkEnds(s, i, o, OPEN_OBJECT);
    MarkEnds(s, MembersEnd(o.End(), members), c, CLOSE_OBJECT);
    MembersAreScanned(s, strtod, o.End(), members, c, open');
    var last := Closed(s, strtod, c.End(), open');
    assert open'[..|open'| - 1] == open;
    SeenTwice([o], MemberTokens(members) + [c], last);
    assert [o] + (MemberTokens(members) + [c]) == Tokens(Object(o, members, c));
  }

  lemma MarkEnds(s: seq<byte>, i: nat, e: Event, c: byte)
    requires MarkAt(s, i, e, c)
    ensures i <= e.off && e.End() <= |s| && e.tok == c
  {
  }

  lemma {:induction false} ItemsAreScanned(s: seq<byte>, strtod: seq<nat>, i: nat, items: Items, c: Event,
      open: seq<byte>)
    requires Numbers(s, strtod) && i <= |s| && ItemsSpelled(s, strtod, i, items) &&
             MarkAt(s, ItemsEnd(i, items), c, CLOSE_ARRAY)
    requires |open| > 0 && open[|open| - 1] == OPEN_ARRAY && |open| + ItemsHeight(items) <= MAX_DEPTH
    requires c.End() <= |s|
    ensures Scan(s, strtod, i, Value, open) == Seen(ItemTokens(items) + [c], Closed(s, strtod, c.End(), open))
    decreases items, 0
  {
    hide Scan, ScalarAt, StringAt, Skip, MarkAt, Seen, Closed;
    var last := Closed(s, strtod, c.End(), open);
    match items {
      case NoItems =>
        assert ItemTokens(items) + [c] == [c];
        CloseStep(s, strtod, i, c, CLOSE_ARRAY, Value, open);
      case LastItem(t) =>
        ValueIsScanned(s, strtod, i, t, open);
        CloseStep(s, strtod, EndOf(t), c, CLOSE_ARRAY, CommaOrEnd, open);
        SeenTwice(Tokens(t), [c], last);
      case Item(t, comma, rest) =>
        MarkEnds(s, EndOf(t), comma, COMMA);
        ValueIsScanned(s, strtod, i, t, open);
        CommaStep(s, strtod, EndOf(t), comma, open);
        ItemsAreScanned(s, strtod, comma.End(), rest, c, open);
        SeenInTurn(Tokens(t), [comma], ItemTokens(rest), [c], last);
    }
  }

  lemma {:induction false} MembersAreScanned(s: seq<byte>, strtod: seq<nat>, i: nat, members: Members, c: Event,
      open: seq<byte>)
    requires Numbers(s, strtod) && i <= |s| && MembersSpelled(s, strtod, i, members) &&
             MarkAt(s, MembersEnd(i, members), c, CLOSE_OBJECT)
    requires |open| > 0 && open[|open| - 1] == OPEN_OBJECT && |open| + MembersHeight(members) <= MAX_DEPTH
    requires c.End() <= |s|
    ensures Scan(s, strtod, i, Key, open) == Seen(MemberTokens(members) + [c], Closed(s, strtod, c.End(), open))
    decreases members, 0
  {
    hide Scan, ScalarAt, StringAt, Skip, MarkAt, Seen, PairAt, Closed;
    var last := Closed(s, strtod, c.End(), open);
    match members {
      case NoMembers =>
        assert MemberTokens(members) + [c] == [c];
        CloseStep(s, strtod, i, c, CLOSE_OBJECT, Key, open);
      case LastMember(key, colon, t) =>
        MemberIsScanned(s, strtod, i, key, colon, t, open);
        CloseStep(s, strtod, EndOf(t), c, CLOSE_OBJECT, CommaOrEnd, open);
        SeenTwice([key, colon] + Tokens(t), [c], last);
      case Member(key, colon, t, comma, rest) =>
        MarkEnds(s, EndOf(t), comma, COMMA);
        MemberIsScanned(s, strtod, i, key, colon, t, open);
        CommaStep(s, strtod, EndOf(t), comma, open);
        MembersAreScanned(s, strtod, comma.End(), rest, c, open);
        SeenInTurn([key, colon] + Tokens(t), [comma], MemberTokens(rest), [c], last);
    }
  }

  lemma {:induction false} MemberIsScanned(s: seq<byte>, strtod: seq<nat>, i: nat, key: Event, colon: Event, t: Tree,
      open: seq<byte>)
    requires Numbers(s, strtod) && i <= |s| && PairAt(s, i, key, colon) && Spelled(s, strtod, colon.End(), t)
    requires |open| > 0 && |open| + Height(t) <= MAX_DEPTH
    ensures Scan(s, strtod, i, Key, open) == Seen([key, colon] + Tokens(t), Scan(s, strtod, EndOf(t), CommaOrEnd, open))
    decreases t, 1
  {
    hide Scan, ScalarAt, StringAt, Skip, MarkAt;
    PairStep(s, strtod, i, key, colon, open);
    MarkEnds(s, key.End(), colon, COLON);
    ValueIsScanned(s, strtod, colon.End(), t, open);
    SeenTwice([key, colon], Tokens(t), Scan(s, strtod, EndOf(t), CommaOrEnd, open));
  }

  // ------------------------------------------ what is accepted is a text of the grammar

  lemma {:induction false} ScannedValue(s: seq<byte>, strtod: seq<nat>, i: nat, open: seq<byte>) returns (t: Tree)
    requires Numbers(s, strtod) && i <= |s| && Scan(s, strtod, i, Value, open).code >= 0
    requires |open| <= MAX_DEPTH && (|open| > 0 && Skip(s, i) < |s| ==> s[Skip(s, i)] != CLOSE_ARRAY)
    ensures Spelled(s, strtod, i, t) && |open| + Height(t) <= MAX_DEPTH
    decreases |s| - i, 0
  {
    hide Scan, Skip;
    hide StringAt, ScalarAt;
    ScanMoves(s, strtod, i, Value, open);
    var k := Skip(s, i);
    if s[k] == OPEN_ARRAY {
      var o := Event(OPEN_ARRAY, k, 1);
      OpenStep(s, strtod, i, o, OPEN_ARRAY, open);
      var items, c := ScannedItems(s, strtod, k + 1, open + [OPEN_ARRAY]);
      t := Array(o, items, c);
    } else if s[k] == OPEN_OBJECT {
      var o := Event(OPEN_OBJECT, k, 1);
      OpenStep(s, strtod, i, o, OPEN_OBJECT, open);
      var members, c := ScannedMembers(s, strtod, k + 1, open + [OPEN_OBJECT]);
      t := Object(o, members, c);
    } else {
      t := Scalar(ScalarAt(s, strtod, k).value);
    }
  }

  /** Behind an entry stands a comma or the list's own closing bracket. */
  lemma ScannedEnd(s: seq<byte>, strtod: seq<nat>, i: nat, open: seq<byte>) returns (e: Event, comma: bool)
    requires Numbers(s, strtod) && i <= |s| && Scan(s, strtod, i, CommaOrEnd, open).code >= 0
    requires |open| > 0 && (open[|open| - 1] == OPEN_ARRAY || open[|open| - 1] == OPEN_OBJECT)
    ensures comma ==> MarkAt(s, i, e, COMMA)
    ensures !comma ==> MarkAt(s, i, e, if open[|open| - 1] == OPEN_ARRAY then CLOSE_ARRAY else CLOSE_OBJECT)
  {
    hide Scan, Skip;
    ScanMoves(s, strtod, i, CommaOrEnd, open);
    var k := Skip(s, i);
    e, comma := Event(s[k], k, 1), s[k] == COMMA;
  }

  lemma {:induction false} ScannedItems(s: seq<byte>, strtod: seq<nat>, i: nat, open: seq<byte>)
      returns (items: Items, c: Event)
    requires Numbers(s, strtod) && i <= |s| && Scan(s, strtod, i, Value, open).code >= 0
    requires |open| > 0 && open[|open| - 1] == OPEN_ARRAY && |open| <= MAX_DEPTH
    ensures ItemsSpelled(s, strtod, i, items) && MarkAt(s, ItemsEnd(i, items), c, CLOSE_ARRAY)
    ensures |open| + ItemsHeight(items) <= MAX_DEPTH
    decreases |s| - i, 1
  {
    hide Scan, Skip, StringAt, ScalarAt;
    ScanEnds(s, strtod, i, Value, open);
    var k := Skip(s, i);
    if s[k] == CLOSE_ARRAY {
      return NoItems, Event(CLOSE_ARRAY, k, 1);
    }
    var t := ScannedValue(s, strtod, i, open);
    ValueIsScanned(s, strtod, i, t, open);
    var e, comma := ScannedEnd(s, strtod, EndOf(t), open);
    if !comma {
      return LastItem(t), e;
    }
    CommaStep(s, strtod, EndOf(t), e, open);
    var rest, last := ScannedItems(s, strtod, e.End(), open);
    return Item(t, e, rest), last;
  }

  lemma ScanEnds(s: seq<byte>, strtod: seq<nat>, i: nat, x: Expecting, open: seq<byte>)
    requires Numbers(s, strtod) && i <= |s| && Scan(s, strtod, i, x, open).code >= 0
    ensures Skip(s, i) < |s|
  {
    ScanMoves(s, strtod, i, x, open);
  }

  lemma ScannedPair(s: seq<byte>, strtod: seq<nat>, i: nat, open: seq<byte>) returns (key: Event, colon: Event)
    requires Numbers(s, strtod) && i <= |s| && Scan(s, strtod, i, Key, open).code >= 0
    requires Skip(s, i) < |s| && s[Skip(s, i)] != CLOSE_OBJECT
    ensures PairAt(s, i, key, colon)
  {
    hide Scan, Skip;
    ScanMoves(s, strtod, i, Key, open);
    key := StringAt(s, Skip(s, i), TOK_KEY).value;
    ScanMoves(s, strtod, key.End(), Colon, open);
    colon := Event(COLON, Skip(s, key.End()), 1);
  }

  lemma {:induction false} ScannedMembers(s: seq<byte>, strtod: seq<nat>, i: nat, open: seq<byte>)
      returns (members: Members, c: Event)
    requires Numbers(s, strtod) && i <= |s| && Scan(s, strtod, i, Key, open).code >= 0
    requires |open| > 0 && open[|open| - 1] == OPEN_OBJECT && |open| <= MAX_DEPTH
    ensures MembersSpelled(s, strtod, i, members) && MarkAt(s, MembersEnd(i, members), c, CLOSE_OBJECT)
    ensures |open| + MembersHeight(members) <= MAX_DEPTH
    decreases |s| - i, 1
  {
    hide Scan, Skip, StringAt, ScalarAt;
    ScanEnds(s, strtod, i, Key, open);
    var k := Skip(s, i);
    if s[k] == CLOSE_OBJECT {
      return NoMembers, Event(CLOSE_OBJECT, k, 1);
    }
    var key, colon := ScannedPair(s, strtod, i, open);
    PairStep(s, strtod, i, key, colon, open);
    NoArrayToClose(s, strtod, colon.End(), open);
    var t := ScannedValue(s, strtod, colon.End(), open);
    ValueIsScanned(s, strtod, colon.End(), t, open);
    var e, comma := ScannedEnd(s, strtod, EndOf(t), open);
    if !comma {
      return LastMember(key, colon, t), e;
    }
    CommaStep(s, strtod, EndOf(t), e, open);
    var rest, last := ScannedMembers(s, strtod, e.End(), open);
    return Member(key, colon, t, e, rest), last;
  }

  /** An array's closing bracket is not taken for a member's value. */
  lemma NoArrayToClose(s: seq<byte>, strtod: seq<nat>, i: nat, open: seq<byte>)
    requires Numbers(s, strtod) && i <= |s| && Scan(s, strtod, i, Value, open).code >= 0
    requires |open| > 0 && open[|open| - 1] == OPEN_OBJECT
    ensures Skip(s, i) < |s| && s[Skip(s, i)] != CLOSE_ARRAY
  {
    hide Scan, Skip;
    ScanMoves(s, strtod, i, Value, open);
  }

  /**
   * `t` is what the tokenizer finds: the value at the start of the text, with no more brackets open
   * than it has room for.
   */
  predicate Finds(s: seq<byte>, strtod: seq<nat>, t: Tree)
    requires Numbers(s, strtod)
  {
    Spelled(s, strtod, 0, t) && Height(t) <= MAX_DEPTH
  }

  /**
   * The tokenizer accepts a text exactly when it starts with a value of the grammar, and then reports
   * that value's tokens.
   */
  lemma AcceptedExactly(s: seq<byte>, strtod: seq<nat>, r: nat, ev: seq<Event>)
    requires Numbers(s, strtod)
    ensures Scan(s, strtod, 0, Value, []) == Outcome(r, ev)
            <==> exists t :: Finds(s, strtod, t) && r == EndOf(t) && ev == Tokens(t)
  {
    if Scan(s, strtod, 0, Value, []) == Outcome(r, ev) {
      var t := ScannedValue(s, strtod, 0, []);
      ValueIsScanned(s, strtod, 0, t, []);
      assert Finds(s, strtod, t);
    }
    forall t | Finds(s, strtod, t) && r == EndOf(t) && ev == Tokens(t)
      ensures Scan(s, strtod, 0, Value, []) == Outcome(r, ev)
    {
      ValueIsScanned(s, strtod, 0, t, []);
    }
  }

  // --------------------------------------------------------------- nesting

  /**
   * The brackets left open by `ev`, none when a bracket closes the wrong one or MAX_DEPTH are open and
   * one more comes.
   */
  function Unclosed(ev: seq<Event>, open: seq<nat>): (rest: Option<seq<nat>>)
    decreases |ev|
  {
    if |ev| == 0 then Some(open)
    else if ev[0].tok == OPEN_ARRAY || ev[0].tok == OPEN_OBJECT then
      if |open| == MAX_DEPTH then None else Unclosed(ev[1..], open + [ev[0].tok])
    else if ev[0].tok == CLOSE_ARRAY || ev[0].tok == CLOSE_OBJECT then
      if |open| == 0 || (open[|open| - 1] == OPEN_ARRAY) != (ev[0].tok == CLOSE_ARRAY) then None
      else Unclosed(ev[1..], open[..|open| - 1])
    else Unclosed(ev[1..], open)
  }

  predicate IsBracket(tok: nat) {
    tok == OPEN_ARRAY || tok == OPEN_OBJECT || tok == CLOSE_ARRAY || tok == CLOSE_OBJECT
  }

  lemma UnclosedStep(e: Event, ev: seq<Event>, open: seq<nat>)
    ensures !IsBracket(e.tok) ==> Unclosed([e] + ev, open) == Unclosed(ev, open)
    ensures (e.tok == OPEN_ARRAY || e.tok == OPEN_OBJECT) && |open| < MAX_DEPTH ==>
              Unclosed([e] + ev, open) == Unclosed(ev, open + [e.tok])
    ensures forall o: nat ::
              (o == OPEN_ARRAY && e.tok == CLOSE_ARRAY) || (o == OPEN_OBJECT && e.tok == CLOSE_OBJECT) ==>
              Unclosed([e] + ev, open + [o]) == Unclosed(ev, open)
  {
    assert ([e] + ev)[1..] == ev;
    assert forall o: nat :: (open + [o])[..|open + [o]| - 1] == open;
  }

  /** A value closes what it opens. */
  lemma {:induction false} ValueNests(s: seq<byte>, strtod: seq<nat>, i: nat, t: Tree, more: seq<Event>, open: seq<nat>)
    requires Numbers(s, strtod) && Spelled(s, strtod, i, t) && |open| + Height(t) <= MAX_DEPTH
    ensures Unclosed(Tokens(t) + more, open) == Unclosed(more, open)
    decreases t
  {
    hide Unclosed, Skip, ScalarAt, StringAt;
    match t {
      case Scalar(e) =>
        UnclosedStep(e, more, open);
      case Array(o, items, c) =>
        UnclosedStep(o, ItemTokens(items) + ([c] + more), open);
        ItemsNest(s, strtod, o.End(), items, [c] + more, open + [OPEN_ARRAY]);
        UnclosedStep(c, more, open);
        assert Tokens(t) + more == [o] + (ItemTokens(items) + ([c] + more));
      case Object(o, members, c) =>
        UnclosedStep(o, MemberTokens(members) + ([c] + more), open);
        MembersNest(s, strtod, o.End(), members, [c] + more, open + [OPEN_OBJECT]);
        UnclosedStep(c, more, open);
        assert Tokens(t) + more == [o] + (MemberTokens(members) + ([c] + more));
    }
  }

  lemma {:induction false} ItemsNest(s: seq<byte>, strtod: seq<nat>, i: nat, items: Items, more: seq<Event>,
      open: seq<nat>)
    requires Numbers(s, strtod) && ItemsSpelled(s, strtod, i, items) && |open| + ItemsHeight(items) <= MAX_DEPTH
    ensures Unclosed(ItemTokens(items) + more, open) == Unclosed(more, open)
    decreases items
  {
    hide Unclosed, Skip, ScalarAt, StringAt;
    match items {
      case NoItems =>
        assert ItemTokens(items) + more == more;
      case LastItem(t) =>
        ValueNests(s, strtod, i, t, more, open);
      case Item(t, comma, rest) =>
        ValueNests(s, strtod, i, t, [comma] + (ItemTokens(rest) + more), open);
        UnclosedStep(comma, ItemTokens(rest) + more, open);
        ItemsNest(s, strtod, comma.End(), rest, more, open);
        assert ItemTokens(items) + more == Tokens(t) + ([comma] + (ItemTokens(rest) + more));
    }
  }

  lemma {:induction false} PairNests(s: seq<byte>, i: nat, key: Event, colon: Event, more: seq<Event>, open: seq<nat>)
    requires PairAt(s, i, key, colon)
    ensures Unclosed([key, colon] + more, open) == Unclosed(more, open)
  {
    UnclosedStep(key, [colon] + more, open);
    UnclosedStep(colon, more, open);
    assert [key, colon] + more == [key] + ([colon] + more);
  }

  lemma {:induction false} MembersNest(s: seq<byte>, strtod: seq<nat>, i: nat, members: Members, more: seq<Event>,
      open: seq<nat>)
    requires Numbers(s, strtod) && MembersSpelled(s, strtod, i, members) && |open| + MembersHeight(members) <= MAX_DEPTH
    ensures Unclosed(MemberTokens(members) + more, open) == Unclosed(more, open)
    decreases members
  {
    hide Unclosed, Skip, ScalarAt, StringAt, PairAt;
    match members {
      case NoMembers =>
        assert MemberTokens(members) + more == more;
      case LastMember(key, colon, t) =>
        PairNests(s, i, key, colon, Tokens(t) + more, open);
        ValueNests(s, strtod, colon.End(), t, more, open);
        assert MemberTokens(members) + more == [key, colon] + (Tokens(t) + more);
      case Member(key, colon, t, comma, rest) =>
        var behind := [comma] + (MemberTokens(rest) + more);
        PairNests(s, i, key, colon, Tokens(t) + behind, open);
        ValueNests(s, strtod, colon.End(), t, behind, open);
        UnclosedStep(comma, MemberTokens(rest) + more, open);
        MembersNest(s, strtod, comma.End(), rest, more, open);
        assert MemberTokens(members) + more == [key, colon] + (Tokens(t) + behind);
    }
  }

  /**
   * After a positive return every bracket the callback saw is matched, never more than MAX_DEPTH were
   * open, and none is left.
   */
  lemma AcceptedMeansNested(s: seq<byte>, strtod: seq<nat>)
    requires Numbers(s, strtod) && Scan(s, strtod, 0, Value, []).code >= 0
    ensures Unclosed(Scan(s, strtod, 0, Value, []).seen, []) == Some([])
  {
    hide Scan, Spelled, Unclosed;
    var t := ScannedValue(s, strtod, 0, []);
    ValueIsScanned(s, strtod, 0, t, []);
    ValueNests(s, strtod, 0, t, [], []);
    assert Tokens(t) + [] == Tokens(t);
    assert Unclosed([], []) == Some([]) by { NothingUnclosed(); }
  }

  lemma NothingUnclosed()
    ensures Unclosed([], []) == Some([])
  {
  }

  // ------------------------------------------------------- commas before a bracket

  /** No list ends in a comma: the nesting JSON allows. */
  predicate Strict(t: Tree) {
    match t
    case Scalar(_) => true
    case Array(_, items, _) => StrictItems(items)
    case Object(_, members, _) => StrictMembers(members)
  }

  predicate StrictItems(items: Items) {
    match items
    case NoItems => true
    case LastItem(t) => Strict(t)
    case Item(t, _, rest) => Strict(t) && rest != NoItems && StrictItems(rest)
  }

  predicate StrictMembers(members: Members) {
    match members
    case NoMembers => true
    case LastMember(_, _, t) => Strict(t)
    case Member(_, _, t, _, rest) => Strict(t) && rest != NoMembers && StrictMembers(rest)
  }

  predicate ClosesList(e: Event) {
    e.tok == CLOSE_ARRAY || e.tok == CLOSE_OBJECT
  }

  /** The callback saw no closing bracket directly behind a comma. */
  predicate Tidy(ev: seq<Event>) {
    forall k :: 0 < k < |ev| && ClosesList(ev[k]) ==> ev[k - 1].tok != COMMA
  }

  /** At a seam, only a comma in front of a closing bracket spoils it. */
  lemma TidyParts(a: seq<Event>, b: seq<Event>)
    requires |a| > 0 && |b| > 0
    ensures Tidy(a + b) <==> Tidy(a) && Tidy(b) && !(a[|a| - 1].tok == COMMA && ClosesList(b[0]))
  {
    var ab := a + b;
    if Tidy(ab) {
      forall k | 0 < k < |a| && ClosesList(a[k]) ensures a[k - 1].tok != COMMA {
        assert ab[k] == a[k] && ab[k - 1] == a[k - 1];
      }
      forall k | 0 < k < |b| && ClosesList(b[k]) ensures b[k - 1].tok != COMMA {
        assert ab[|a| + k] == b[k] && ab[|a| + k - 1] == b[k - 1];
      }
      assert ab[|a|] == b[0] && ab[|a| - 1] == a[|a| - 1];
    }
  }

  /** A value neither starts with a closing bracket nor ends in a comma. */
  lemma ValueEnds(s: seq<byte>, strtod: seq<nat>, i: nat, t: Tree)
    requires Numbers(s, strtod) && Spelled(s, strtod, i, t)
    ensures var ev := Tokens(t);
            |ev| > 0 && !ClosesList(ev[0]) && ev[|ev| - 1].tok != COMMA
  {
    hide Skip, ScalarAt, StringAt, ItemsSpelled, MembersSpelled;
  }

  lemma {:induction false} ValueTidy(s: seq<byte>, strtod: seq<nat>, i: nat, t: Tree)
    requires Numbers(s, strtod) && Spelled(s, strtod, i, t)
    ensures Tidy(Tokens(t)) <==> Strict(t)
    decreases t
  {
    hide Tidy, Skip, ScalarAt, StringAt;
    match t {
      case Scalar(e) =>
        OneTidy(e);
      case Array(o, items, c) =>
        OneTidy(o);
        ItemsTidy(s, strtod, o.End(), items, c);
        TidyParts([o], ItemTokens(items) + [c]);
        assert Tokens(t) == [o] + (ItemTokens(items) + [c]);
      case Object(o, members, c) =>
        OneTidy(o);
        MembersTidy(s, strtod, o.End(), members, c);
        TidyParts([o], MemberTokens(members) + [c]);
        assert Tokens(t) == [o] + (MemberTokens(members) + [c]);
    }
  }

  lemma OneTidy(e: Event)
    ensures Tidy([e])
  {
  }

  /** A list and its closing bracket. */
  lemma {:induction false} ItemsTidy(s: seq<byte>, strtod: seq<nat>, i: nat, items: Items, c: Event)
    requires Numbers(s, strtod) && ItemsSpelled(s, strtod, i, items) && ClosesList(c)
    ensures Tidy(ItemTokens(items) + [c]) <==> StrictItems(items)
    decreases items
  {
    hide Tidy, Skip, ScalarAt, StringAt, Tokens, ClosesList, Spelled;
    match items {
      case NoItems =>
        OneTidy(c);
        assert ItemTokens(items) + [c] == [c];
      case LastItem(t) =>
        ValueTidy(s, strtod, i, t);
        ValueEnds(s, strtod, i, t);
        OneTidy(c);
        TidyParts(Tokens(t), [c]);
      case Item(t, comma, rest) =>
        ValueTidy(s, strtod, i, t);
        ValueEnds(s, strtod, i, t);
        ItemsTidy(s, strtod, comma.End(), rest, c);
        CommaTidy(Tokens(t), comma, ItemTokens(rest) + [c]);
        ItemsStart(s, strtod, comma.End(), rest, c);
        assert ItemTokens(items) + [c] == Tokens(t) + ([comma] + (ItemTokens(rest) + [c]));
    }
  }

  lemma CommaTidy(a: seq<Event>, comma: Event, b: seq<Event>)
    requires |a| > 0 && |b| > 0 && comma.tok == COMMA && a[|a| - 1].tok != COMMA
    ensures Tidy(a + ([comma] + b)) <==> Tidy(a) && Tidy(b) && !ClosesList(b[0])
  {
    hide Tidy;
    OneTidy(comma);
    TidyParts(a, [comma] + b);
    TidyParts([comma], b);
  }

  lemma ItemsStart(s: seq<byte>, strtod: seq<nat>, i: nat, items: Items, c: Event)
    requires Numbers(s, strtod) && ItemsSpelled(s, strtod, i, items) && ClosesList(c)
    ensures ClosesList((ItemTokens(items) + [c])[0]) <==> items == NoItems
  {
    hide Skip, ScalarAt, StringAt, Tokens, Spelled;
    match items {
      case NoItems =>
      case LastItem(t) => ValueEnds(s, strtod, i, t);
      case Item(t, _, _) => ValueEnds(s, strtod, i, t);
    }
  }

  lemma MembersStart(s: seq<byte>, strtod: seq<nat>, i: nat, members: Members, c: Event)
    requires Numbers(s, strtod) && MembersSpelled(s, strtod, i, members) && ClosesList(c)
    ensures ClosesList((MemberTokens(members) + [c])[0]) <==> members == NoMembers
  {
    hide Skip, ScalarAt, Tokens, Spelled;
  }

  /** A key, its colon and its value. */
  lemma MemberTidy(s: seq<byte>, strtod: seq<nat>, i: nat, key: Event, colon: Event, t: Tree)
    requires Numbers(s, strtod) && PairAt(s, i, key, colon) && Spelled(s, strtod, colon.End(), t)
    ensures var ev := [key, colon] + Tokens(t);
            && (Tidy(ev) <==> Tidy(Tokens(t))) && ev[|ev| - 1].tok != COMMA && !ClosesList(ev[0])
  {
    hide Tidy, Skip, ScalarAt, Spelled, Tokens;
    ValueEnds(s, strtod, colon.End(), t);
    OneTidy(key);
    OneTidy(colon);
    TidyParts([key], [colon]);
    assert [key] + [colon] == [key, colon];
    TidyParts([key, colon], Tokens(t));
  }

  lemma {:induction false} MembersTidy(s: seq<byte>, strtod: seq<nat>, i: nat, members: Members, c: Event)
    requires Numbers(s, strtod) && MembersSpelled(s, strtod, i, members) && ClosesList(c)
    ensures Tidy(MemberTokens(members) + [c]) <==> StrictMembers(members)
    decreases members
  {
    hide Tidy, Skip, ScalarAt, StringAt, Tokens, ClosesList, Spelled, PairAt;
    match members {
      case NoMembers =>
        OneTidy(c);
        assert MemberTokens(members) + [c] == [c];
      case LastMember(key, colon, t) =>
        ValueTidy(s, strtod, colon.End(), t);
        MemberTidy(s, strtod, i, key, colon, t);
        OneTidy(c);
        TidyParts([key, colon] + Tokens(t), [c]);
      case Member(key, colon, t, comma, rest) =>
        ValueTidy(s, strtod, colon.End(), t);
        MemberTidy(s, strtod, i, key, colon, t);
        MembersTidy(s, strtod, comma.End(), rest, c);
        CommaTidy([key, colon] + Tokens(t), comma, MemberTokens(rest) + [c]);
        MembersStart(s, strtod, comma.End(), rest, c);
        assert MemberTokens(members) + [c] == ([key, colon] + Tokens(t)) + ([comma] + (MemberTokens(rest) + [c]));
    }
  }

  /**
   * The value found in an accepted text is nested as JSON allows exactly when no closing bracket was
   * seen behind a comma.
   */
  lemma StrictExactly(s: seq<byte>, strtod: seq<nat>, r: nat, ev: seq<Event>)
    requires Numbers(s, strtod) && Scan(s, strtod, 0, Value, []) == Outcome(r, ev)
    ensures (exists t :: Finds(s, strtod, t) && Tokens(t) == ev && Strict(t)) <==> Tidy(ev)
  {
    hide Scan, Spelled, Tidy, Strict;
    AcceptedExactly(s, strtod, r, ev);
    forall t | Finds(s, strtod, t) && Tokens(t) == ev ensures Tidy(ev) <==> Strict(t) {
      ValueTidy(s, strtod, 0, t);
    }
  }

  lemma NothingToSkip(s: seq<byte>, i: nat)
    requires i < |s| && !IsSpace(s[i])
    ensures Skip(s, i) == i
  {
  }

  lemma DigitIsNumber(s: seq<byte>, strtod: seq<nat>, i: nat)
    requires i < |s| && Numbers(s, strtod) && 48 <= s[i] <= 57
    ensures ScalarAt(s, strtod, i) == Some(Event(TOK_NUMBER, i, strtod[i]))
  {
  }

  /** An accepted text that is not JSON: an array whose one number is followed by a comma. */
  lemma CommaBeforeBracketIsAccepted()
    ensures var s: seq<byte> := [OPEN_ARRAY, 49, COMMA, CLOSE_ARRAY];
            var o := Scan(s, [0, 1, 0, 0], 0, Value, []);
            o.code == 4 && !Tidy(o.seen)
  {
    hide Scan, Skip, ScalarAt, IsSpace;
    var s: seq<byte> := [OPEN_ARRAY, 49, COMMA, CLOSE_ARRAY];
    var strtod: seq<nat> := [0, 1, 0, 0];
    NoSpaces();
    NothingToSkip(s, 0);
    NothingToSkip(s, 1);
    NothingToSkip(s, 2);
    NothingToSkip(s, 3);
    DigitIsNumber(s, strtod, 1);
    var first, number := Event(OPEN_ARRAY, 0, 1), Event(TOK_NUMBER, 1, 1);
    var comma, last := Event(COMMA, 2, 1), Event(CLOSE_ARRAY, 3, 1);
    assert Spelled(s, strtod, 1, Scalar(number));
    var t := Array(first, Item(Scalar(number), comma, NoItems), last);
    assert Finds(s, strtod, t);
    assert Tokens(t) == [first, number, comma, last];
    AcceptedExactly(s, strtod, 4, Tokens(t));
    assert ClosesList(Tokens(t)[3]) && Tokens(t)[2].tok == COMMA;
  }

  lemma NoSpaces()
    ensures !IsSpace(OPEN_ARRAY) && !IsSpace(49) && !IsSpace(COMMA) && !IsSpace(CLOSE_ARRAY)
  {
  }
}
