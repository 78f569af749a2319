/** Domain names on the wire (RFC 1035 sections 3.1 and 4.1.4): the encoder of
    `BuildRequest` and the two name-skipping loops of `ProcessResponse`. */
module DnsName {
  import opened Words
  import opened Wrappers
  import opened PacketReader

  type Label = seq<byte>

  const DOT: byte := 46

  /** Position of the first dot, or the length. */
  function FirstDot(name: seq<byte>): (n: nat)
    ensures n <= |name|
    ensures forall i :: 0 <= i < n ==> name[i] != DOT
    ensures n < |name| ==> name[n] == DOT
  {
    if name == [] || name[0] == DOT then 0 else 1 + FirstDot(name[1..])
  }

  /** The labels of a dotted name; empty segments and a trailing dot do not count. */
  function Labels(name: seq<byte>): seq<Label>
    decreases |name|
  {
    if name == [] then []
    else
      var n := FirstDot(name);
      (if n > 0 then [name[..n]] else []) + (if n < |name| then Labels(name[n + 1..]) else [])
  }

  /** Length bytes are `uint8_t`: a long label's length is truncated. */
  function EncodeLabels(labels: seq<Label>): seq<byte> {
    if labels == [] then [] else [|labels[0]| % 0x100] + labels[0] + EncodeLabels(labels[1..])
  }

  lemma {:induction false} EncodeLabelsConcat(a: seq<Label>, b: seq<Label>)
    ensures EncodeLabels(a + b) == EncodeLabels(a) + EncodeLabels(b)
  {
    if a == [] {
      assert a + b == b;
    } else {
      assert (a + b)[1..] == a[1..] + b;
      EncodeLabelsConcat(a[1..], b);
    }
  }

  /** What is still to be written for the name from `start` on. */
  ghost function Left(name: seq<byte>, start: nat): seq<byte> {
    if start <= |name| then EncodeLabels(Labels(name[start..])) else []
  }

  /** The bytes written for the segment from `start` to `end`. */
  function Segment(name: seq<byte>, start: nat, end: nat): seq<byte>
    requires start <= end <= |name|
  {
    if start < end then [(end - start) % 0x100] + name[start..end] else []
  }

  /** `end` is the first dot from `start` on, or the end of the name. */
  ghost predicate EndsSegment(name: seq<byte>, start: nat, end: nat) {
    && start <= end <= |name|
    && (forall i :: start <= i < end ==> name[i] != DOT)
    && (end < |name| ==> name[end] == DOT)
  }

  method FindSegmentEnd(name: seq<byte>, start: nat) returns (end: nat)
    requires start <= |name|
    ensures EndsSegment(name, start, end)
  {
    end := start;
    while end < |name| && name[end] != DOT
      invariant start <= end <= |name|
      invariant forall i :: start <= i < end ==> name[i] != DOT
    {
      end := end + 1;
    }
  }

  method WriteSegment(packet: seq<byte>, name: seq<byte>, start: nat, end: nat) returns (longer: seq<byte>)
    requires start <= end <= |name|
    ensures longer == packet + Segment(name, start, end)
  {
    longer := packet;
    if end - start > 0 {
      longer := longer + [(end - start) % 0x100];
      longer := longer + name[start..end];
    }
  }

  /** `left(i)` is what the name still needs from position `i` on. */
  ghost predicate Unwritten(name: seq<byte>, left: nat -> seq<byte>) {
    && left(|name| + 1) == []
    && forall start: nat, end: nat :: EndsSegment(name, start, end) ==>
         left(start) == Segment(name, start, end) + left(end + 1)
  }

  /** The body of the name loop. */
  method WriteNext(packet0: seq<byte>, name: seq<byte>, start: nat, ghost left: nat -> seq<byte>)
    returns (packet: seq<byte>, end: nat)
    requires start <= |name| && Unwritten(name, left)
    ensures start <= end <= |name|
    ensures packet + left(end + 1) == packet0 + left(start)
  {
    end := FindSegmentEnd(name, start);
    Regroup(packet0, Segment(name, start, end), left(end + 1));
    packet := WriteSegment(packet0, name, start, end);
  }

  /** The name loop of `BuildRequest`, writing to a packet under construction. */
  method WriteLabels(name: seq<byte>, ghost left: nat -> seq<byte>) returns (packet: seq<byte>)
    requires Unwritten(name, left)
    ensures packet == left(0)
  {
    packet := [];
    var start, end := 0, 0;
    while end < |name|
      invariant end <= |name| && (start == end == 0 || start == end + 1)
      invariant packet + left(start) == left(0)
      decreases |name| + 1 - start
    {
      packet, end := WriteNext(packet, name, start, left);
      start := end + 1;
    }
    assert packet + [] == packet;
    assert name == [] ==> EndsSegment(name, 0, 0);
  }

  method WriteName(name: seq<byte>) returns (packet: seq<byte>)
    ensures packet == EncodeLabels(Labels(name)) + [0]
  {
    ghost var left := (i: nat) => Left(name, i);
    LeftIsUnwritten(name, left);
    packet := WriteLabels(name, left);
    packet := packet + [0];
  }

  lemma LeftIsUnwritten(name: seq<byte>, left: nat -> seq<byte>)
    requires forall i: nat :: left(i) == Left(name, i)
    ensures Unwritten(name, left) && left(0) == EncodeLabels(Labels(name))
  {
    assert name[0..] == name;
    forall start: nat, end: nat | EndsSegment(name, start, end)
      ensures left(start) == Segment(name, start, end) + left(end + 1)
    {
      SegmentWritten(name, start, end);
    }
  }

  lemma SegmentWritten(name: seq<byte>, start: nat, end: nat)
    requires EndsSegment(name, start, end)
    ensures Left(name, start) == Segment(name, start, end) + Left(name, end + 1)
  {
    var tail, n := name[start..], end - start;
    assert tail[..n] == name[start..end];
    assert end < |name| ==> tail[n + 1..] == name[end + 1..];
    FirstDotUnique(tail, n);
    LabelsSplit(tail);
  }

  /** The first segment of a name and the labels behind it. */
  lemma LabelsSplit(tail: seq<byte>)
    ensures var n := FirstDot(tail);
      EncodeLabels(Labels(tail)) ==
        (if n > 0 then [n % 0x100] + tail[..n] else []) +
        (if n < |tail| then EncodeLabels(Labels(tail[n + 1..])) else [])
  {
    if tail != [] {
      var n := FirstDot(tail);
      var first: seq<Label> := if n > 0 then [tail[..n]] else [];
      var later: seq<Label> := if n < |tail| then Labels(tail[n + 1..]) else [];
      EncodeLabelsConcat(first, later);
      OneLabel(tail[..n]);
    }
  }

  lemma OneLabel(l: Label)
    ensures EncodeLabels([l]) == [|l| % 0x100] + l
  {
    assert [l][1..] == [];
  }

  lemma {:induction false} FirstDotUnique(name: seq<byte>, n: nat)
    requires n <= |name| && (forall i :: 0 <= i < n ==> name[i] != DOT) && (n < |name| ==> name[n] == DOT)
    ensures FirstDot(name) == n
    decreases |name|
  {
    if n > 0 { FirstDotUnique(name[1..], n - 1); }
  }

  /** Reference: an uncompressed name as RFC 1035 section 3.1 reads it, and how many
      bytes it takes. */
  function DecodeName(s: seq<byte>): Option<(seq<Label>, nat)>
    decreases |s|
  {
    if s == [] then None
    else
      var len: int := s[0];
      if len == 0 then Some(([], 1))
      else if len > 63 || |s| < 1 + len then None
      else
        var tail := DecodeName(s[1 + len..]);
        if tail.None? then None
        else Some(([s[1..1 + len]] + tail.value.0, 1 + len + tail.value.1))
  }

  ghost predicate Short(labels: seq<Label>) {
    forall i :: 0 <= i < |labels| ==> 0 < |labels[i]| <= 63
  }

  lemma {:induction false} LabelsAreNotEmpty(name: seq<byte>)
    ensures forall i :: 0 <= i < |Labels(name)| ==> |Labels(name)[i]| > 0
    decreases |name|
  {
    if name != [] {
      var n := FirstDot(name);
      if n < |name| { LabelsAreNotEmpty(name[n + 1..]); }
    }
  }

  /** The first label of an encoded name and what follows it. */
  lemma FirstLabel(labels: seq<Label>, tail: seq<byte>)
    requires labels != []
    ensures var s, l := EncodeLabels(labels) + [0] + tail, labels[0];
      && |s| >= 1 + |l| && s[0] == |l| % 0x100
      && s[1..1 + |l|] == l && s[1 + |l|..] == EncodeLabels(labels[1..]) + [0] + tail
  {
    var l := labels[0];
    assert EncodeLabels(labels) + [0] + tail == [|l| % 0x100] + l + (EncodeLabels(labels[1..]) + [0] + tail);
  }

  lemma {:induction false} DecodeEncoded(labels: seq<Label>, tail: seq<byte>)
    requires Short(labels)
    ensures DecodeName(EncodeLabels(labels) + [0] + tail) == Some((labels, |EncodeLabels(labels)| + 1))
    decreases |labels|
  {
    var s := EncodeLabels(labels) + [0] + tail;
    if labels == [] {
      assert s[0] == 0;
    } else {
      FirstLabel(labels, tail);
      DecodeEncoded(labels[1..], tail);
      assert [labels[0]] + labels[1..] == labels;
    }
  }

  /** A label longer than 63 bytes spoils the name: it does not decode to the labels. */
  lemma {:induction false} LongLabelSpoilsName(labels: seq<Label>, tail: seq<byte>)
    requires forall i :: 0 <= i < |labels| ==> |labels[i]| > 0
    requires !Short(labels)
    ensures var d := DecodeName(EncodeLabels(labels) + [0] + tail); d.Some? ==> d.value.0 != labels
    decreases |labels|
  {
    var l := labels[0];
    var s := EncodeLabels(labels) + [0] + tail;
    var s' := EncodeLabels(labels[1..]) + [0] + tail;
    assert s == [|l| % 0x100] + l + s';
    var d := DecodeName(s);
    if |l| <= 63 {
      assert s[1..1 + |l|] == l && s[1 + |l|..] == s';
      LongLabelSpoilsName(labels[1..], tail);
      assert d.Some? ==> d.value.0[1..] == DecodeName(s').value.0;
    } else if d.Some? && d.value.0 != [] {
      assert |d.value.0[0]| <= 63;
    }
  }

  /** The round trip over every host name: it holds exactly when no label exceeds 63
      bytes, which `BuildRequest` does not check. */
  lemma NameRoundTripIff(name: seq<byte>, tail: seq<byte>)
    ensures Decodes(Labels(name), tail) <==> forall i :: 0 <= i < |Labels(name)| ==> |Labels(name)[i]| <= 63
  {
    LabelsAreNotEmpty(name);
    LabelsRoundTripIff(Labels(name), tail);
  }

  /** What is written for the labels reads back as the labels and nothing else. */
  predicate Decodes(labels: seq<Label>, tail: seq<byte>) {
    DecodeName(EncodeLabels(labels) + [0] + tail) == Some((labels, |EncodeLabels(labels)| + 1))
  }

  lemma LabelsRoundTripIff(labels: seq<Label>, tail: seq<byte>)
    requires forall i :: 0 <= i < |labels| ==> |labels[i]| > 0
    ensures Decodes(labels, tail) <==> Short(labels)
  {
    if Short(labels) {
      DecodeEncoded(labels, tail);
    } else {
      LongLabelSpoilsName(labels, tail);
    }
  }

  // ----- Skipping a name in the question section -----

  /** One turn of the question loop from `len`, the variable's value before. */
  function QuestionTurn(s: seq<byte>, len: byte): (seq<byte>, byte) {
    var l := if s == [] then len else s[0];
    if l > 0 then (Skip(s, 1 + l as int), 255) else (Skip(s, 1), 0)
  }

  /** The loop after `n` turns; it is over once `len` is 0. */
  function QuestionTurns(s: seq<byte>, len: byte, n: nat): (seq<byte>, byte)
    decreases n
  {
    if n == 0 then (s, len)
    else
      var (s', len') := QuestionTurn(s, len);
      if len' == 0 then (s', 0) else QuestionTurns(s', len', n - 1)
  }

  /** The name ends, in a zero length byte, inside the packet. */
  predicate NameComplete(s: seq<byte>)
    decreases |s|
  {
    s != [] && (s[0] == 0 || NameComplete(Skip(s, 1 + s[0] as int)))
  }

  function AfterName(s: seq<byte>): seq<byte>
    requires NameComplete(s)
    decreases |s|
  {
    if s[0] == 0 then s[1..] else AfterName(Skip(s, 1 + s[0] as int))
  }

  /** The question loop ends exactly on names complete in the packet (or on nothing
      at all with a zero left in the variable): an exhausted packet leaves `len` at
      255 for ever. */
  lemma QuestionLoopEndsIff(s: seq<byte>, len: byte)
    ensures (exists n: nat :: n > 0 && QuestionTurns(s, len, n).1 == 0) <==> NameComplete(s) || (s == [] && len == 0)
  {
    if NameComplete(s) {
      var n := TurnsNeeded(s, len);
    } else if s == [] && len == 0 {
      assert QuestionTurns(s, len, 1).1 == 0;
    } else {
      forall n: nat | n > 0 ensures QuestionTurns(s, len, n).1 != 0 {
        NeverEnds(s, len, n);
      }
    }
  }

  lemma {:induction false} TurnsNeeded(s: seq<byte>, len: byte) returns (n: nat)
    requires NameComplete(s)
    ensures n > 0 && QuestionTurns(s, len, n) == (AfterName(s), 0)
    decreases |s|
  {
    if s[0] == 0 {
      n := 1;
    } else {
      n := TurnsNeeded(Skip(s, 1 + s[0] as int), 255);
      n := n + 1;
    }
  }

  lemma {:induction false} NeverEnds(s: seq<byte>, len: byte, n: nat)
    requires !NameComplete(s) && (s == [] ==> len != 0) && n > 0
    ensures QuestionTurns(s, len, n).1 != 0
    decreases n
  {
    var (s', len') := QuestionTurn(s, len);
    if n > 1 { NeverEnds(s', len', n - 1); }
  }

  /** On what `BuildRequest` writes, the question loop stops right behind the name. */
  lemma {:induction false} QuestionSkipsEncoded(labels: seq<Label>, tail: seq<byte>)
    requires Short(labels)
    ensures var s := EncodeLabels(labels) + [0] + tail; NameComplete(s) && AfterName(s) == tail
    decreases |labels|
  {
    var s := EncodeLabels(labels) + [0] + tail;
    if labels == [] {
      assert s[1..] == tail;
    } else {
      var l := labels[0];
      var s' := EncodeLabels(labels[1..]) + [0] + tail;
      assert s == [|l|] + l + s';
      assert Skip(s, 1 + |l|) == s';
      QuestionSkipsEncoded(labels[1..], tail);
    }
  }

  // ----- Skipping a name in the answer section -----

  /** The answer loop: labels until a zero byte, or a byte with one of the top two
      bits set, which counts as a pointer.  Total: the 255 left by an exhausted
      packet reads as a pointer. */
  function AfterAnswerName(s: seq<byte>, len: byte): seq<byte>
    decreases |s|, len < 64
  {
    var l := if s == [] then len else s[0];
    if l >= 64 then Skip(s, 2)
    else if l > 0 then AfterAnswerName(Skip(s, 1 + l as int), 255)
    else Skip(s, 1)
  }

  /** A name in an answer: labels, then the root or a compression pointer. */
  datatype Name = Name(labels: seq<Label>, pointer: Option<(byte, byte)>)

  predicate GoodName(n: Name) {
    && (forall i :: 0 <= i < |n.labels| ==> 0 < |n.labels[i]| <= 63)
    && (n.pointer.Some? ==> n.pointer.value.0 >= 0xC0)
  }

  function EncodeName(n: Name): seq<byte> {
    EncodeLabels(n.labels) + if n.pointer.Some? then [n.pointer.value.0, n.pointer.value.1] else [0]
  }

  /** Any mix of labels and a pointer is skipped exactly, whatever the uninitialised
      loop variable held. */
  lemma {:induction false} AnswerNameSkipped(n: Name, tail: seq<byte>, len: byte)
    requires GoodName(n)
    ensures AfterAnswerName(EncodeName(n) + tail, len) == tail
    decreases |n.labels|
  {
    var s := EncodeName(n) + tail;
    if n.labels == [] {
      assert Skip(s, if n.pointer.Some? then 2 else 1) == tail;
    } else {
      var l := n.labels[0];
      var n' := Name(n.labels[1..], n.pointer);
      assert s == [|l|] + l + (EncodeName(n') + tail);
      assert Skip(s, 1 + |l|) == EncodeName(n') + tail;
      AnswerNameSkipped(n', tail, 255);
    }
  }
}
