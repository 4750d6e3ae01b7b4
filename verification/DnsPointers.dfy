// Compressed names in mg_dns_parse_name (components/mongoose/src/dns.c): labels, then a pointer to where
// the name goes on (section 4.1.4 of RFC 1035).
module DnsPointers {
  import opened Bytes
  import opened Dns

  /** Labels, possibly none, as they stand in front of a pointer. */
  function Front(labels: seq<byte>): (b: seq<byte>) {
    if labels == [] then [] else Labels(labels, 0)
  }

  function Pointer(to: nat): (b: seq<byte>)
    requires to < 0x4000
  {
    [192 + to / 256, to % 256]
  }

  predicate GoodFront(labels: seq<byte>) {
    labels == [] || (|labels| <= MAX_NAME && GoodLabels(labels, 0))
  }

  lemma PointerIsFollowed(to: nat)
    requires to < 0x4000
    ensures Target(192 + to / 256, to % 256) == to
  {
  }

  lemma LabelThenLiesAt(s: seq<byte>, at: nat, name: seq<byte>, from: nat, tail: seq<byte>)
    requires from <= |name| && LabelEnd(name, from) <= MAX_NAME && LiesAt(Labels(name, from) + tail, s, at)
    ensures var e := LabelEnd(name, from);
            && at + (e - from) < |s| && s[at] == (e - from) % 256
            && s[at + 1..at + 1 + (e - from)] == name[from..e]
            && LiesAt((if e == |name| then [] else Labels(name, e + 1)) + tail, s, at + (e - from) + 1)
  {
    hide LiesAt, LabelEnd, Labels;
    var e := LabelEnd(name, from);
    LabelsStep(name, from);
    OneLabelIs(name, from);
    var behind := if e == |name| then [] else Labels(name, e + 1);
    InFour([(e - from) % 256], name[from..e], behind, tail);
    OctetLiesAt((e - from) % 256, name[from..e] + (behind + tail), s, at);
    TextLiesAt(name[from..e], behind + tail, s, at + 1);
  }

  /** Good labels with something behind them are read one by one. */
  lemma {:induction false} LabelsThen(s: seq<byte>, ofs: nat, name: seq<byte>, from: nat, tail: seq<byte>, depth: nat)
    requires from <= |name| <= MAX_NAME && depth <= 5 && GoodLabels(name, from) && |tail| >= 2
    requires LiesAt(Labels(name, from) + tail, s, ofs + from)
    requires from > 0 ==> from > 1 && name[from - 1] == DOT
    ensures ReadName(s, ofs, from, Before(name, from), depth) == ReadName(s, ofs, |name| + 1, name, depth)
    ensures LiesAt(tail, s, ofs + |name| + 1)
    decreases |name| - from
  {
    hide LiesAt, Labels, LabelEnd, ReadName, Joined, Followed, Target;
    LabelThenLiesAt(s, ofs + from, name, from, tail);
    var e := LabelEnd(name, from);
    ReadOne(s, ofs, from, Before(name, from), depth);
    BeforeNext(name, from, e);
    hide Before;
    if e < |name| {
      LongEnough(Labels(name, e + 1) + tail, s, ofs + e + 1);
      LabelsThen(s, ofs, name, e + 1, tail, depth);
    } else {
      assert [] + tail == tail && name[..e] == name;
      LongEnough(tail, s, ofs + e + 1);
    }
  }

  lemma LongEnough(t: seq<byte>, s: seq<byte>, at: nat)
    requires LiesAt(t, s, at)
    ensures at + |t| <= |s|
  {
  }

  /** Up to a pointer. */
  lemma ReadToPointer(s: seq<byte>, at: nat, labels: seq<byte>, to: nat, depth: nat)
    requires depth <= 5 && to < 0x4000 && GoodFront(labels) && LiesAt(Front(labels) + Pointer(to), s, at)
    ensures var i := |Front(labels)|;
            && at + i + 2 <= |s| && s[at + i] == 192 + to / 256 && s[at + i + 1] == to % 256
            && ReadName(s, at, 0, [], depth) == ReadName(s, at, i, labels, depth)
  {
    hide LiesAt, Labels, ReadName;
    var p := Pointer(to);
    if labels == [] {
      assert [] + p == p;
    } else {
      LabelsThen(s, at, labels, 0, p, depth);
    }
    var i := at + |Front(labels)|;
    assert [p[0]] + [p[1]] == p;
    OctetLiesAt(p[0], [p[1]], s, i);
    assert [p[1]] == [p[1]] + [];
    OctetLiesAt(p[1], [], s, i + 1);
  }

  /** Labels, and where their pointer leads. */
  datatype Hop = Hop(labels: seq<byte>, to: nat)

  /** The name stands behind this many pointers, each leading to labels. */
  ghost predicate Leads(s: seq<byte>, at: nat, hops: seq<Hop>, name: seq<byte>)
    decreases |hops|
  {
    if hops == [] then
      |name| <= MAX_NAME && GoodLabels(name, 0) && LiesAt(Labels(name, 0) + [0], s, at) && at + |name| + 2 < |s|
    else
      && hops[0].to < 0x4000 && GoodFront(hops[0].labels)
      && LiesAt(Front(hops[0].labels) + Pointer(hops[0].to), s, at)
      && (|hops| > 1 ==> hops[1].labels != [])
      && Leads(s, hops[0].to, hops[1..], name)
  }

  /**
   * A name behind at most five pointers is read, and what is taken is what stands in front of the first
   * pointer and the pointer; behind more it is refused. The labels in front of a pointer are
   * not kept: the text is only that of the last piece.
   */
  lemma {:induction false} FivePointersAreFollowed(s: seq<byte>, at: nat, hops: seq<Hop>, name: seq<byte>, depth: nat)
    requires depth <= 5 && Leads(s, at, hops, name)
    ensures ReadName(s, at, 0, [], depth) ==
              if depth + |hops| > 5 then Name(0, [])
              else if hops == [] then Name(|name| + 2, name)
              else Name(|Front(hops[0].labels)| + 2, name)
    decreases |hops|
  {
    hide LiesAt, Labels, ReadName, Target, GoodLabels;
    if hops == [] {
      LabelsAreRead(s, at, name, 0, depth);
    } else {
      var to, i := hops[0].to, |Front(hops[0].labels)|;
      ReadToPointer(s, at, hops[0].labels, to, depth);
      ReadOne(s, at, i, hops[0].labels, depth);
      PointerIsFollowed(to);
      LedToLabel(s, to, hops[1..], name);
      if depth < 5 {
        FivePointersAreFollowed(s, to, hops[1..], name, depth + 1);
      }
    }
  }

  lemma LedToLabel(s: seq<byte>, at: nat, hops: seq<Hop>, name: seq<byte>)
    requires Leads(s, at, hops, name) && (hops != [] ==> hops[0].labels != [])
    ensures at + 1 < |s| && s[at] < 64
  {
    hide LiesAt, Labels, LabelEnd;
    var text := if hops == [] then name else hops[0].labels;
    LabelThenLiesAt(s, at, text, 0, if hops == [] then [0] else Pointer(hops[0].to));
  }

  /** The name that RFC 1035 means: the labels of all pieces. */
  function Whole(hops: seq<Hop>, name: seq<byte>): (n: seq<byte>)
    ensures |n| >= |name|
    decreases |hops|
  {
    if hops == [] then name else Joined(hops[0].labels, Whole(hops[1..], name))
  }

  /** So a compressed name is read whole exactly when nothing but one pointer stands in front of it. */
  lemma ReadWholeExactly(s: seq<byte>, at: nat, hops: seq<Hop>, name: seq<byte>)
    requires Leads(s, at, hops, name)
    ensures ReadName(s, at, 0, [], 0) == Name(if hops == [] then |name| + 2 else 2, Whole(hops, name)) <==>
              hops == [] || (|hops| == 1 && hops[0].labels == [])
  {
    hide LiesAt, Labels, ReadName;
    FivePointersAreFollowed(s, at, hops, name, 0);
    if hops != [] {
      WholeIsLonger(hops, name);
      if |hops| == 1 && hops[0].labels == [] {
        assert Whole(hops[1..], name) == name && [] + [] + name == name;
      }
    }
  }

  lemma WholeIsLonger(hops: seq<Hop>, name: seq<byte>)
    requires hops != [] && (|hops| > 1 ==> hops[1].labels != [])
    ensures hops[0].labels != [] || |hops| > 1 ==> |Whole(hops, name)| > |name|
  {
    if |hops| > 1 {
      assert hops[1..][0].labels != [];
      assert |Whole(hops[1..], name)| == |Joined(hops[1..][0].labels, Whole(hops[1..][1..], name))|;
    }
  }

  /** A pointer to a pointer, or out of the message, ends the name: the labels in front of it are kept. */
  lemma PointerAway(s: seq<byte>, at: nat, labels: seq<byte>, to: nat, depth: nat)
    requires depth <= 5 && to < 0x4000 && GoodFront(labels) && LiesAt(Front(labels) + Pointer(to), s, at)
    requires to + 1 >= |s| || s[to] >= 64
    ensures ReadName(s, at, 0, [], depth) == Name(|Front(labels)| + 2, labels)
  {
    hide LiesAt, Labels, ReadName;
    ReadToPointer(s, at, labels, to, depth);
    PointerIsFollowed(to);
    ReadOne(s, at, |Front(labels)|, labels, depth);
  }

  /** A query asks for an address of its family in the Internet class, and its name is at its front. */
  lemma QuestionAsks(name: seq<byte>, ipv6: bool)
    ensures var q := Question(name, ipv6);
            && q == Labels(name, 0) + [0] + q[|q| - 4..]
            && Num16(q, |q| - 4) == (if ipv6 then 28 else 1) && Num16(q, |q| - 2) == 1
  {
    hide Labels;
  }
}
