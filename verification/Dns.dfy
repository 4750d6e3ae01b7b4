// components/mongoose/src/dns.c: how a query writes its name, and how names are read
// back, compression pointers included (section 4.1 of RFC 1035).
module Dns {
  import opened Bytes
  import opened IoBuf

  const DOT: byte := 46
  const DATA_SIZE: nat := 256
  const MAX_NAME: nat := 250

  // ------------------------------------------------------- the query's name

  /** Where the label starting at `from` ends. */
  function LabelEnd(name: seq<byte>, from: nat): (e: nat)
    requires from <= |name|
    ensures from <= e <= |name| && (e < |name| ==> name[e] == DOT) && forall k :: from <= k < e ==> name[k] != DOT
    decreases |name| - from
  {
    if from == |name| || name[from] == DOT then from else LabelEnd(name, from + 1)
  }

  function OneLabel(name: seq<byte>, from: nat): (b: seq<byte>)
    requires from <= |name|
    ensures |b| == LabelEnd(name, from) - from + 1
  {
    [(LabelEnd(name, from) - from) % 256] + name[from..LabelEnd(name, from)]
  }

  /**
   * The labels from `from` on, a count before each; one that would end beyond MAX_NAME is dropped with
   * all behind it.
   */
  function Labels(name: seq<byte>, from: nat): (b: seq<byte>)
    requires from <= |name|
    ensures |name| <= MAX_NAME ==> |b| == |name| - from + 1
    decreases |name| - from
  {
    var e := LabelEnd(name, from);
    if e > MAX_NAME then []
    else OneLabel(name, from) + (if e == |name| then [] else Labels(name, e + 1))
  }

  /** What follows the packet's header: the name, a zero, the type and the class. */
  function Question(name: seq<byte>, ipv6: bool): (q: seq<byte>) {
    Labels(name, 0) + [0, 0, if ipv6 then 28 else 1, 0, 1]
  }

  predicate GoodLabels(name: seq<byte>, from: nat)
    requires from <= |name|
    decreases |name| - from
  {
    var e := LabelEnd(name, from);
    1 <= e - from <= 63 && (e == |name| || GoodLabels(name, e + 1))
  }

  // ---------------------------------------------------------- reading a name

  /** How many octets of the message the name takes (0 for an error), and the text read. */
  datatype Name = Name(consumed: nat, text: seq<byte>)

  function Joined(text: seq<byte>, part: seq<byte>): (t: seq<byte>) {
    text + (if |text| > 0 then [DOT] else []) + part
  }

  /** The target of a compression pointer. */
  function Target(n: byte, next: byte): (ptr: nat) {
    n % 64 * 256 + next
  }

  /** The loop of mg_dns_parse_name_depth, `i` octets into the name at `ofs` and with `text` read. */
  function ReadName(s: seq<byte>, ofs: nat, i: nat, text: seq<byte>, depth: nat): (r: Name)
    requires depth <= 5
    ensures r.consumed > 0 && ofs + i <= |s| ==> ofs + r.consumed <= |s|
    decreases 5 - depth, |s| - i
  {
    if ofs + i + 1 >= |s| then Name(i, text)
    else
      var n := s[ofs + i];
      if n == 0 then Name(i + 1, text)
      else if n >= 64 then
        var ptr := Target(n, s[ofs + i + 1]);
        if Followed(s, n, ofs + i + 1) then
          if depth == 5 then Name(0, [])
          else
            var r := ReadName(s, ptr, 0, [], depth + 1);
            if r.consumed == 0 then r else Name(i + 2, r.text)
        else Name(i + 2, text)
      else if ofs + i + n + 1 >= |s| then Name(0, text)
      else ReadName(s, ofs, i + n + 1, Joined(text, s[ofs + i + 1..ofs + i + 1 + n]), depth)
  }

  // ------------------------------------------------------------ round trip

  lemma OctetLiesAt(c: byte, rest: seq<byte>, s: seq<byte>, at: nat)
    requires LiesAt([c] + rest, s, at)
    ensures at < |s| && s[at] == c && LiesAt(rest, s, at + 1)
  {
    PartsLieAt([c], rest, s, at);
    assert s[at + 0] == [c][0];
  }

  lemma TextLiesAt(t: seq<byte>, rest: seq<byte>, s: seq<byte>, at: nat)
    requires LiesAt(t + rest, s, at)
    ensures at + |t| <= |s| && s[at..at + |t|] == t && LiesAt(rest, s, at + |t|)
  {
    PartsLieAt(t, rest, s, at);
  }

  lemma InFour(a: seq<byte>, b: seq<byte>, c: seq<byte>, d: seq<byte>)
    ensures ((a + b) + c) + d == a + (b + (c + d))
  {
  }

  lemma LabelsStep(name: seq<byte>, from: nat)
    requires from <= |name| && LabelEnd(name, from) <= MAX_NAME
    ensures var e := LabelEnd(name, from);
            Labels(name, from) == OneLabel(name, from) + if e == |name| then [] else Labels(name, e + 1)
  {
    hide LabelEnd, OneLabel;
  }

  lemma OneLabelIs(name: seq<byte>, from: nat)
    requires from <= |name|
    ensures OneLabel(name, from) == [(LabelEnd(name, from) - from) % 256] + name[from..LabelEnd(name, from)]
  {
    hide LabelEnd;
  }

  lemma FrontLiesAt(c: byte, t: seq<byte>, behind: seq<byte>, s: seq<byte>, at: nat)
    requires LiesAt(([c] + t) + behind + [0], s, at)
    ensures at + |t| + 1 < |s| && s[at] == c && s[at + 1..at + 1 + |t|] == t
    ensures LiesAt(behind + [0], s, at + |t| + 1) && (behind == [] ==> s[at + |t| + 1] == 0)
  {
    InFour([c], t, behind, [0]);
    OctetLiesAt(c, t + (behind + [0]), s, at);
    TextLiesAt(t, behind + [0], s, at + 1);
    assert behind == [] ==> behind + [0] == [0] + [];
    if behind == [] { OctetLiesAt(0, [], s, at + 1 + |t|); }
  }

  lemma LabelsLieAt(s: seq<byte>, at: nat, name: seq<byte>, from: nat)
    requires from <= |name| && LabelEnd(name, from) <= MAX_NAME && LiesAt(Labels(name, from) + [0], s, at)
    ensures var e := LabelEnd(name, from);
            && at + (e - from) + 1 < |s| && s[at] == e - from && s[at + 1..at + 1 + (e - from)] == name[from..e]
            && (e < |name| ==> LiesAt(Labels(name, e + 1) + [0], s, at + (e - from) + 1))
            && (e == |name| ==> s[at + (e - from) + 1] == 0)
  {
    hide LiesAt, LabelEnd, Labels;
    var e := LabelEnd(name, from);
    LabelsStep(name, from);
    OneLabelIs(name, from);
    FrontLiesAt((e - from) % 256, name[from..e], if e == |name| then [] else Labels(name, e + 1), s, at);
  }

  /** The text in front of the label at `from`. */
  function Before(name: seq<byte>, from: nat): (t: seq<byte>)
    requires from <= |name|
  {
    if from == 0 then [] else name[..from - 1]
  }

  lemma BeforeNext(name: seq<byte>, from: nat, e: nat)
    requires from <= e <= |name| && (from > 0 ==> from > 1 && name[from - 1] == DOT)
    ensures Joined(Before(name, from), name[from..e]) == name[..e]
  {
    if from > 0 {
      assert name[..from - 1] + [DOT] + name[from..e] == name[..e];
    }
  }

  /** What the loop does at one position. */
  lemma ReadOne(s: seq<byte>, ofs: nat, i: nat, text: seq<byte>, depth: nat)
    requires depth <= 5
    ensures ofs + i + 1 >= |s| ==> ReadName(s, ofs, i, text, depth) == Name(i, text)
    ensures ofs + i + 1 < |s| ==>
              var n, r := s[ofs + i], ReadName(s, ofs, i, text, depth);
              && (n == 0 ==> r == Name(i + 1, text))
              && (n >= 64 ==> r.consumed == 0 || r.consumed == i + 2)
              && (n >= 64 && !Followed(s, n, ofs + i + 1) ==> r == Name(i + 2, text))
              && (n >= 64 && Followed(s, n, ofs + i + 1) ==>
                    if depth == 5 then r == Name(0, [])
                    else var inner := ReadName(s, Target(n, s[ofs + i + 1]), 0, [], depth + 1);
                         r == if inner.consumed == 0 then inner else Name(i + 2, inner.text))
              && (0 < n < 64 && ofs + i + n + 1 >= |s| ==> r == Name(0, text))
              && (0 < n < 64 && ofs + i + n + 1 < |s| ==>
                    r == ReadName(s, ofs, i + n + 1, Joined(text, s[ofs + i + 1..ofs + i + 1 + n]), depth))
  {
    hide Joined, Target;
  }

  /** A pointer is followed if it leads to a label inside the message. */
  predicate Followed(s: seq<byte>, n: byte, next: nat)
    requires next < |s|
  {
    var ptr := Target(n, s[next]);
    ptr + 1 < |s| && s[ptr] < 64
  }

  /** From any label on, the whole name is read exactly when every label that is left has 1 to 63 octets. */
  lemma {:induction false} LabelsAreRead(s: seq<byte>, ofs: nat, name: seq<byte>, from: nat, depth: nat)
    requires from <= |name| <= MAX_NAME && depth <= 5
    requires LiesAt(Labels(name, from) + [0], s, ofs + from) && ofs + |name| + 2 < |s|
    requires from > 0 ==> from > 1 && name[from - 1] == DOT
    ensures var r := ReadName(s, ofs, from, Before(name, from), depth);
            if GoodLabels(name, from) then r == Name(|name| + 2, name) else r.consumed != |name| + 2
    decreases |name| - from
  {
    hide LiesAt, Labels, LabelEnd, ReadName, Joined;
    LabelsLieAt(s, ofs + from, name, from);
    var e := LabelEnd(name, from);
    ReadOne(s, ofs, from, Before(name, from), depth);
    if 1 <= e - from <= 63 {
      BeforeNext(name, from, e);
      if e < |name| {
        LabelsAreRead(s, ofs, name, e + 1, depth);
      } else {
        assert name[..e] == name;
        ReadOne(s, ofs, e + 1, name, depth);
      }
    }
  }

  /** Of a name that is too long for its buffer less is sent, and no more than that is read. */
  lemma {:induction false} CutNamesAreShort(s: seq<byte>, ofs: nat, name: seq<byte>, from: nat, text: seq<byte>)
    requires from <= MAX_NAME + 1 && MAX_NAME < |name| && LiesAt(Labels(name, from) + [0], s, ofs + from)
    ensures ReadName(s, ofs, from, text, 0).consumed <= MAX_NAME + 2
    decreases |name| - from
  {
    hide LiesAt, LabelEnd, ReadName, Joined, Labels;
    var e := LabelEnd(name, from);
    ReadOne(s, ofs, from, text, 0);
    if e > MAX_NAME {
      LabelDropped(name, from);
      assert [] + [0] == [0] + [];
      OctetLiesAt(0, [], s, ofs + from);
    } else {
      LabelsLieAt(s, ofs + from, name, from);
      if 1 <= e - from <= 63 {
        CutNamesAreShort(s, ofs, name, e + 1, Joined(text, name[from..e]));
      }
    }
  }

  /**
   * A query's name is read back verbatim, up to and including its zero, exactly when it has at most
   * 250 octets and all its labels have 1 to 63.
   */
  lemma QueryNameRoundTrip(header: seq<byte>, name: seq<byte>, ipv6: bool, more: seq<byte>)
    ensures var r := ReadName(header + Question(name, ipv6) + more, |header|, 0, [], 0);
            && (|name| <= 250 && GoodLabels(name, 0) ==> r == Name(|name| + 2, name))
            && (r.consumed == |name| + 2 ==> |name| <= 250 && GoodLabels(name, 0))
  {
    var s := header + Question(name, ipv6) + more;
    var front := Labels(name, 0) + [0];
    assert s == header + (front + ([0, if ipv6 then 28 else 1, 0, 1] + more));
    assert LiesAt(front, s, |header|);
    if |name| <= MAX_NAME {
      LabelsAreRead(s, |header|, name, 0, 0);
    } else {
      CutNamesAreShort(s, |header|, name, 0, []);
    }
  }

  // ---------------------------------------------------------------- methods

  /** The label that ends at `i`: its count at `n`, its octets behind. */
  method WriteLabel(name: seq<byte>, n: nat, i: nat, data: array<byte>)
    requires n <= i <= |name| && i == LabelEnd(name, n) && i < data.Length
    modifies data
    ensures data[..i + 1] == old(data[..n]) + OneLabel(name, n)
  {
    hide LabelEnd;
    data[n] := (i - n) % 256;
    Memcpy(data, n + 1, name[n..i]);
  }

  /** The name loop of mg_dns_send and the five octets behind it. */
  method WriteQuestion(name: seq<byte>, ipv6: bool, data: array<byte>) returns (n: nat)
    requires data.Length == DATA_SIZE
    modifies data
    ensures n <= DATA_SIZE && data[..n] == Question(name, ipv6)
  {
    hide OneLabel, Labels;
    n := WriteLabels(name, data);
    Memcpy(data, n, [0, 0, 1, 0, 1]);
    n := n + 5;
    ghost var q := data[..n];
    assert q == Labels(name, 0) + [0, 0, 1, 0, 1];
    if ipv6 {
      data[n - 3] := 28;
      assert data[..n] == q[n - 3 := 28];
    }
  }

  method WriteLabels(name: seq<byte>, data: array<byte>) returns (n: nat)
    requires data.Length == DATA_SIZE
    modifies data
    ensures n + 5 <= DATA_SIZE && data[..n] == Labels(name, 0)
  {
    hide OneLabel, LabelEnd, Labels;
    var i := 0;
    n := 0;
    while i < DATA_SIZE - 5
      invariant 0 <= n <= i <= DATA_SIZE - 5
      invariant i <= |name| && i <= LabelEnd(name, n)
      invariant data[..n] + Labels(name, n) == Labels(name, 0)
      decreases DATA_SIZE - 5 - i
    {
      LabelGoesOn(name, n, i);
      if i >= |name| || name[i] == DOT {
        ghost var front := data[..n];
        LabelWritten(name, n, front);
        WriteLabel(name, n, i, data);
        n := i + 1;
      }
      if i >= |name| { return; }
      i := i + 1;
    }
    LabelDropped(name, n);
  }

  lemma LabelWritten(name: seq<byte>, n: nat, front: seq<byte>)
    requires n <= |name| && LabelEnd(name, n) <= MAX_NAME
    ensures var e := LabelEnd(name, n);
            front + Labels(name, n) == (front + OneLabel(name, n)) + if e == |name| then [] else Labels(name, e + 1)
  {
    hide LabelEnd;
    LabelsStep(name, n);
  }

  lemma LabelDropped(name: seq<byte>, n: nat)
    requires n <= |name| && LabelEnd(name, n) > MAX_NAME
    ensures Labels(name, n) == []
  {
  }

  lemma LabelGoesOn(name: seq<byte>, n: nat, i: nat)
    requires n <= i <= |name| && i <= LabelEnd(name, n)
    ensures LabelEnd(name, n) == i <==> i == |name| || name[i] == DOT
    ensures i < |name| ==> i + 1 <= LabelEnd(name, i + 1)
  {
    if i < LabelEnd(name, n) {
      assert name[n..LabelEnd(name, n)][i - n] == name[i];
    }
  }

  /** One label of mg_dns_parse_name_depth; `j` counts on even where the text does not fit. */
  method CopyLabel(to: array<byte>, j: nat, part: seq<byte>, ghost text: seq<byte>) returns (j': nat)
    requires j == |text| && (j < to.Length ==> to[..j] == text)
    modifies to
    ensures j' == |Joined(text, part)| && (j' < to.Length ==> to[..j'] == Joined(text, part) && to[j'] == 0)
  {
    j' := j;
    if j' > 0 {
      if j' < to.Length { to[j'] := DOT; }
      j' := j' + 1;
    }
    if j' + |part| < to.Length { Memcpy(to, j', part); }
    j' := j' + |part|;
    if j' < to.Length { to[j'] := 0; }
  }

  /** mg_dns_parse_name_depth: writes nowhere but in `to`, which then holds the text, or at least a terminator. */
  method ParseName(s: seq<byte>, ofs: nat, to: array<byte>, depth: nat) returns (i: nat)
    modifies to
    ensures depth > 5 ==> i == 0 && (to.Length > 0 ==> to[0] == 0)
    ensures depth <= 5 ==> i == ReadName(s, ofs, 0, [], depth).consumed
    ensures depth <= 5 ==> Holds(to[..], ReadName(s, ofs, 0, [], depth).text)
    ensures i > 0 && to.Length > 0 ==> to[to.Length - 1] == 0
    decreases 6 - depth
  {
    hide Joined, Target, ReadName;
    var j := 0;
    i := 0;
    if to.Length > 0 { to[0] := 0; }
    if depth > 5 { return 0; }
    ghost var text: seq<byte> := [];
    ghost var whole := ReadName(s, ofs, 0, [], depth);
    while ofs + i + 1 < |s|
      invariant j == |text| && Holds(to[..], text)
      invariant ReadName(s, ofs, i, text, depth) == whole
      decreases |s| - i
    {
      ReadOne(s, ofs, i, text, depth);
      var n: byte := s[ofs + i];
      if n == 0 {
        i := i + 1;
        break;
      }
      if n >= 64 {
        var ptr := Target(n, s[ofs + i + 1]);
        if Followed(s, n, ofs + i + 1) {
          var inner := ParseName(s, ptr, to, depth + 1);
          if inner == 0 { return 0; }
          text := whole.text;
        }
        i := i + 2;
        break;
      }
      if ofs + i + n + 1 >= |s| { return 0; }
      var part := s[ofs + i + 1..ofs + i + 1 + n];
      j := CopyLabel(to, j, part, text);
      i := i + n + 1;
      text := Joined(text, part);
    }
    if ofs + i + 1 >= |s| { ReadOne(s, ofs, i, text, depth); }
    if to.Length > 0 { to[to.Length - 1] := 0; }
  }

  /** A buffer the text fits into holds it, terminated. */
  predicate Holds(to: seq<byte>, text: seq<byte>) {
    |text| < |to| ==> to[..|text|] == text && to[|text|] == 0
  }
}
