// The JSON text the tokenizer of components/mongoose/examples/complete/mjson.c accepts:
// a grammar over token positions, and the tokenizer as a pushdown automaton.
module MjsonText {
  import opened Bytes
  import opened Wrappers

  const INVALID_INPUT: int := -1
  const TOO_DEEP: int := -2
  const MAX_DEPTH: nat := 20

  const TOK_KEY: nat := 1
  const TOK_STRING: nat := 11
  const TOK_NUMBER: nat := 12
  const TOK_TRUE: nat := 13
  const TOK_FALSE: nat := 14
  const TOK_NULL: nat := 15

  const QUOTE: byte := 34
  const BACKSLASH: byte := 92
  const COMMA: byte := 44
  const COLON: byte := 58
  const OPEN_ARRAY: byte := 91
  const CLOSE_ARRAY: byte := 93
  const OPEN_OBJECT: byte := 123
  const CLOSE_OBJECT: byte := 125

  /** One call of the callback: the token and where its text lies. */
  datatype Event = Event(tok: nat, off: nat, len: nat) {
    function End(): (e: nat) { off + len }
  }

  // -------------------------------------------------------------- tokens

  predicate IsSpace(c: byte) {
    c == 32 || c == 9 || c == 10 || c == 13
  }

  /** mjson_esc(c, 1): the letter behind the backslash, 0 for an octet that is not escaped. */
  function EscapeLetter(c: byte): (l: byte) {
    if c == 8 then 98 else if c == 12 then 102 else if c == 10 then 110 else if c == 13 then 114
    else if c == 9 then 116 else if c == BACKSLASH then BACKSLASH else if c == QUOTE then QUOTE else 0
  }

  /** mjson_esc(l, 0): what the letter stands for, 0 for no escape at all. */
  function Escaped(l: byte): (c: byte) {
    if l == 98 then 8 else if l == 102 then 12 else if l == 110 then 10 else if l == 114 then 13
    else if l == 116 then 9 else if l == BACKSLASH then BACKSLASH else if l == QUOTE then QUOTE else 0
  }

  /** Where the string whose text starts at `i` has its closing quote. */
  function ClosingQuote(s: seq<byte>, i: nat): (q: Option<nat>)
    requires i <= |s|
    ensures q.Some? ==> i <= q.value < |s| && s[q.value] == QUOTE
    decreases |s| - i
  {
    if i == |s| then None
    else if s[i] == BACKSLASH && i + 1 < |s| && EscapeLetter(s[i + 1]) != 0 then ClosingQuote(s, i + 2)
    else if s[i] == 0 then None
    else if s[i] == QUOTE then Some(i)
    else ClosingQuote(s, i + 1)
  }

  /** What strtod consumes at each position; it never runs past the text. */
  predicate Numbers(s: seq<byte>, strtod: seq<nat>) {
    |strtod| == |s| && forall k :: 0 <= k < |s| ==> k + strtod[k] <= |s|
  }

  predicate WordAt(s: seq<byte>, i: nat, word: seq<byte>): (b: bool)
    requires i <= |s|
    ensures b && word != [] ==> i < |s| && s[i] == word[0]
  {
    i + |word| <= |s| && s[i..i + |word|] == word
  }

  function StringAt(s: seq<byte>, i: nat, tok: nat): (e: Option<Event>)
    requires i < |s|
    ensures e.Some? ==> e.value.tok == tok && e.value.off == i && e.value.len >= 2
    ensures e.Some? ==> e.value.End() <= |s| && s[i] == QUOTE
  {
    if s[i] != QUOTE then None
    else match ClosingQuote(s, i + 1)
      case None => None
      case Some(q) => Some(Event(tok, i, q - i + 1))
  }

  /** A value that is neither an array nor an object. */
  function ScalarAt(s: seq<byte>, strtod: seq<nat>, i: nat): (e: Option<Event>)
    requires i < |s| && Numbers(s, strtod)
    ensures e.Some? ==> e.value.off == i && e.value.End() <= |s| && TOK_STRING <= e.value.tok <= TOK_NULL
    ensures e.Some? ==> !IsSpace(s[i]) && s[i] != OPEN_ARRAY && s[i] != OPEN_OBJECT && s[i] != CLOSE_ARRAY
    ensures e.Some? && e.value.len == 0 ==> s[i] == 45 || 48 <= s[i] <= 57
  {
    if WordAt(s, i, [116, 114, 117, 101]) then Some(Event(TOK_TRUE, i, 4))
    else if WordAt(s, i, [110, 117, 108, 108]) then Some(Event(TOK_NULL, i, 4))
    else if WordAt(s, i, [102, 97, 108, 115, 101]) then Some(Event(TOK_FALSE, i, 5))
    else if s[i] == 45 || 48 <= s[i] <= 57 then Some(Event(TOK_NUMBER, i, strtod[i]))
    else StringAt(s, i, TOK_STRING)
  }

  // ----------------------------------------------------------------- trees

  /** A value as the sequence of its tokens; whitespace lies between the tokens. */
  datatype Tree =
    | Scalar(token: Event)
    | Array(first: Event, items: Items, last: Event)
    | Object(first: Event, members: Members, last: Event)

  /** The tokenizer takes a closing bracket behind a comma, so a list may end with one. */
  datatype Items = NoItems | LastItem(item: Tree) | Item(item: Tree, comma: Event, rest: Items)

  datatype Members =
    | NoMembers
    | LastMember(key: Event, colon: Event, value: Tree)
    | Member(key: Event, colon: Event, value: Tree, comma: Event, rest: Members)

  function Tokens(t: Tree): (ev: seq<Event>) {
    match t
    case Scalar(e) => [e]
    case Array(o, items, c) => [o] + ItemTokens(items) + [c]
    case Object(o, members, c) => [o] + MemberTokens(members) + [c]
  }

  function ItemTokens(items: Items): (ev: seq<Event>) {
    match items
    case NoItems => []
    case LastItem(t) => Tokens(t)
    case Item(t, comma, rest) => Tokens(t) + [comma] + ItemTokens(rest)
  }

  function MemberTokens(members: Members): (ev: seq<Event>) {
    match members
    case NoMembers => []
    case LastMember(key, colon, t) => [key, colon] + Tokens(t)
    case Member(key, colon, t, comma, rest) => [key, colon] + Tokens(t) + [comma] + MemberTokens(rest)
  }

  /** How many brackets are open at once. */
  function Height(t: Tree): (h: nat) {
    match t
    case Scalar(_) => 0
    case Array(_, items, _) => 1 + ItemsHeight(items)
    case Object(_, members, _) => 1 + MembersHeight(members)
  }

  function Max(a: nat, b: nat): (m: nat) {
    if a < b then b else a
  }

  function ItemsHeight(items: Items): (h: nat) {
    match items
    case NoItems => 0
    case LastItem(t) => Height(t)
    case Item(t, _, rest) => Max(Height(t), ItemsHeight(rest))
  }

  function MembersHeight(members: Members): (h: nat) {
    match members
    case NoMembers => 0
    case LastMember(_, _, t) => Height(t)
    case Member(_, _, t, _, rest) => Max(Height(t), MembersHeight(rest))
  }

  // --------------------------------------------------------------- grammar

  /** Where a value, or a list starting at `i`, ends. */
  function EndOf(t: Tree): (j: nat) {
    if t.Scalar? then t.token.End() else t.last.End()
  }

  function ItemsEnd(i: nat, items: Items): (j: nat)
    decreases items
  {
    match items
    case NoItems => i
    case LastItem(t) => EndOf(t)
    case Item(_, comma, rest) => ItemsEnd(comma.End(), rest)
  }

  function MembersEnd(i: nat, members: Members): (j: nat)
    decreases members
  {
    match members
    case NoMembers => i
    case LastMember(_, _, t) => EndOf(t)
    case Member(_, _, _, comma, rest) => MembersEnd(comma.End(), rest)
  }

  /** The first position from `i` on that is not whitespace. */
  function Skip(s: seq<byte>, i: nat): (j: nat)
    requires i <= |s|
    ensures i <= j <= |s|
    ensures j < |s| ==> !IsSpace(s[j])
    decreases |s| - i
  {
    if i < |s| && IsSpace(s[i]) then Skip(s, i + 1) else i
  }

  predicate MarkAt(s: seq<byte>, i: nat, e: Event, c: byte) {
    i <= |s| && Skip(s, i) < |s| && s[Skip(s, i)] == c && e == Event(c, Skip(s, i), 1)
  }

  /** `t` is the text from `i` to EndOf(t). */
  predicate Spelled(s: seq<byte>, strtod: seq<nat>, i: nat, t: Tree)
    requires Numbers(s, strtod)
    ensures Spelled(s, strtod, i, t) ==> i <= EndOf(t) <= |s|
    decreases t
  {
    match t
    case Scalar(e) => i <= |s| && Skip(s, i) < |s| && ScalarAt(s, strtod, Skip(s, i)) == Some(e)
    case Array(o, items, c) =>
      && MarkAt(s, i, o, OPEN_ARRAY)
      && ItemsSpelled(s, strtod, o.End(), items)
      && MarkAt(s, ItemsEnd(o.End(), items), c, CLOSE_ARRAY)
    case Object(o, members, c) =>
      && MarkAt(s, i, o, OPEN_OBJECT)
      && MembersSpelled(s, strtod, o.End(), members)
      && MarkAt(s, MembersEnd(o.End(), members), c, CLOSE_OBJECT)
  }

  predicate ItemsSpelled(s: seq<byte>, strtod: seq<nat>, i: nat, items: Items)
    requires Numbers(s, strtod)
    ensures ItemsSpelled(s, strtod, i, items) && i <= |s| ==> i <= ItemsEnd(i, items) <= |s|
    decreases items
  {
    match items
    case NoItems => true
    case LastItem(t) => Spelled(s, strtod, i, t)
    case Item(t, comma, rest) =>
      && Spelled(s, strtod, i, t)
      && MarkAt(s, EndOf(t), comma, COMMA)
      && ItemsSpelled(s, strtod, comma.End(), rest)
  }

  predicate MembersSpelled(s: seq<byte>, strtod: seq<nat>, i: nat, members: Members)
    requires Numbers(s, strtod)
    ensures MembersSpelled(s, strtod, i, members) && i <= |s| ==> i <= MembersEnd(i, members) <= |s|
    decreases members
  {
    match members
    case NoMembers => true
    case LastMember(key, colon, t) =>
      && PairAt(s, i, key, colon)
      && Spelled(s, strtod, colon.End(), t)
    case Member(key, colon, t, comma, rest) =>
      && PairAt(s, i, key, colon)
      && Spelled(s, strtod, colon.End(), t)
      && MarkAt(s, EndOf(t), comma, COMMA)
      && MembersSpelled(s, strtod, comma.End(), rest)
  }

  /** A member's key and the colon behind it. */
  predicate PairAt(s: seq<byte>, i: nat, key: Event, colon: Event) {
    && i <= |s| && Skip(s, i) < |s| && StringAt(s, Skip(s, i), TOK_KEY) == Some(key)
    && MarkAt(s, key.End(), colon, COLON)
  }

  // ---------------------------------------------------- the pushdown automaton

  datatype Expecting = Value | Key | Colon | CommaOrEnd

  /** What mjson returns, and the callback's calls. */
  datatype Outcome = Outcome(code: int, seen: seq<Event>)

  function Seen(ev: seq<Event>, o: Outcome): (o': Outcome) {
    Outcome(o.code, ev + o.seen)
  }

  function Failure(code: int): (o: Outcome) {
    Outcome(code, [])
  }

  /** In the character table a closing bracket is two behind its opening one. */
  predicate Closes(c: byte, open: seq<byte>)
    requires |open| > 0
  {
    var o: int := open[|open| - 1];
    c == o + 2
  }

  /** What the loop does with one token: leave, or go on behind it. */
  datatype Move = Leave(o: Outcome) | On(e: Event, j: nat, x: Expecting, open: seq<byte>)

  /** MJSONEOO and the callback behind it */
  function CloseMove(i: nat, c: byte, open: seq<byte>): (m: Move)
    requires |open| > 0
  {
    var mark := Event(c, i, 1);
    if !Closes(c, open) then Leave(Failure(INVALID_INPUT))
    else if |open| == 1 then Leave(Outcome(i + 1, [mark]))
    else On(mark, i + 1, CommaOrEnd, open[..|open| - 1])
  }

  function ValueMove(s: seq<byte>, strtod: seq<nat>, i: nat, open: seq<byte>): (m: Move)
    requires Numbers(s, strtod) && i < |s|
  {
    if s[i] == OPEN_OBJECT || s[i] == OPEN_ARRAY then
      if |open| >= MAX_DEPTH then Leave(Failure(TOO_DEEP))
      else On(Event(s[i], i, 1), i + 1, if s[i] == OPEN_OBJECT then Key else Value, open + [s[i]])
    else if s[i] == CLOSE_ARRAY && |open| > 0 then CloseMove(i, s[i], open)
    else match ScalarAt(s, strtod, i)
      case None => Leave(Failure(INVALID_INPUT))
      case Some(e) => if |open| == 0 then Leave(Outcome(e.End(), [e])) else On(e, e.End(), CommaOrEnd, open)
  }

  function KeyMove(s: seq<byte>, i: nat, open: seq<byte>): (m: Move)
    requires i < |s|
  {
    if StringAt(s, i, TOK_KEY).Some? then
      var e := StringAt(s, i, TOK_KEY).value;
      On(e, e.End(), Colon, open)
    else if s[i] == CLOSE_OBJECT && |open| > 0 then CloseMove(i, s[i], open)
    else Leave(Failure(INVALID_INPUT))
  }

  function TokenMove(s: seq<byte>, strtod: seq<nat>, i: nat, x: Expecting, open: seq<byte>): (m: Move)
    requires Numbers(s, strtod) && i < |s|
    ensures m.On? ==> i <= m.j <= |s| && (m.j == i ==> x == Value && m.x == CommaOrEnd)
  {
    match x
    case Value => ValueMove(s, strtod, i, open)
    case Key => KeyMove(s, i, open)
    case Colon =>
      if s[i] == COLON then On(Event(s[i], i, 1), i + 1, Value, open) else Leave(Failure(INVALID_INPUT))
    case CommaOrEnd =>
      if |open| == 0 then Leave(Failure(INVALID_INPUT))
      else if s[i] == COMMA then
        On(Event(s[i], i, 1), i + 1, if open[|open| - 1] == OPEN_OBJECT then Key else Value, open)
      else if s[i] == CLOSE_ARRAY || s[i] == CLOSE_OBJECT then CloseMove(i, s[i], open)
      else Leave(Failure(INVALID_INPUT))
  }

  /** The run of the loop from position `i` with the brackets `open` unclosed. */
  function Scan(s: seq<byte>, strtod: seq<nat>, i: nat, x: Expecting, open: seq<byte>): (o: Outcome)
    requires Numbers(s, strtod) && i <= |s|
    decreases |s| - i, if x == Value then 1 else 0
  {
    if i == |s| then Failure(INVALID_INPUT)
    else if IsSpace(s[i]) then Scan(s, strtod, i + 1, x, open)
    else match TokenMove(s, strtod, i, x, open)
      case Leave(o) => o
      case On(e, j, x', open') => Seen([e], Scan(s, strtod, j, x', open'))
  }
}
