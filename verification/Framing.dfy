/** Command frames STX command ETX in a 24-byte buffer. */
module Framing {
  import opened Words

  const STX: byte := 2
  const ETX: byte := 3

  type Buffer = s: seq<byte> | |s| == 24 witness seq(24, _ => 0)

  /** A received payload in a zeroed buffer; what does not fit is dropped. */
  function Received(payload: seq<byte>): Buffer {
    if |payload| >= 24 then payload[..24] else payload + seq(24 - |payload|, _ => 0)
  }

  /** `strlen`: the bytes before the first zero.  A full buffer has none, and the
      string runs on into `beyond`, the memory behind it. */
  function CString(m: seq<byte>): (s: seq<byte>)
    ensures s <= m && 0 !in s
    ensures |s| < |m| ==> m[|s|] == 0
  {
    if m == [] || m[0] == 0 then [] else [m[0]] + CString(m[1..])
  }

  /** Position of the last `c`, or -1. */
  function LastIndex(s: seq<byte>, c: byte): (i: int)
    ensures -1 <= i < |s|
    ensures i >= 0 ==> s[i] == c
    ensures forall j :: i < j < |s| ==> s[j] != c
  {
    if s == [] then -1
    else if s[|s| - 1] == c then |s| - 1
    else LastIndex(s[..|s| - 1], c)
  }

  /** The command in a buffer: from behind the last STX, or the beginning, to the
      last ETX. */
  function CommandIn(buff: Buffer, beyond: seq<byte>): (c: seq<byte>)
    ensures |c| <= 24
  {
    var str := CString(buff + beyond);
    var s, e := LastIndex(str, STX) + 1, LastIndex(str, ETX) - 1;
    if s <= e < 24 then buff[s..e + 1] else []
  }

  /** `checkRecvPacketComplete`: the flag for STX is assigned where it was to be
      compared, so ETX alone decides. */
  method IsComplete(buff: Buffer) returns (complete: bool)
    ensures complete <==> ETX in buff
  {
    var findStx, findEtx := false, false;
    for i := 0 to 24
      invariant !findEtx && ETX !in buff[..i] && (i > 0 ==> findStx)
    {
      if buff[i] == STX {
        findStx := true;
      }
      findStx := true;
      if buff[i] == ETX {
        findEtx := true;
        break;
      }
    }
    complete := findStx && findEtx;
  }

  /** `getIndex`. */
  method GetIndex(ch: byte, word: seq<byte>) returns (result: int)
    ensures result == LastIndex(word, ch)
  {
    result := -1;
    for i := 0 to |word|
      invariant result == LastIndex(word[..i], ch)
    {
      assert word[..i + 1][..i] == word[..i];
      if word[i] == ch { result := i; }
    }
    assert word[..|word|] == word;
  }

  /** `getCommand` and `getData`: the command goes to the front of `realBuff`. */
  method GetCommand(tempBuff: Buffer, beyond: seq<byte>, realBuff: array<byte>) returns (ghost c: seq<byte>)
    requires realBuff.Length == 24
    modifies realBuff
    ensures c == CommandIn(tempBuff, beyond) && realBuff[..|c|] == c
    ensures forall i :: |c| <= i < 24 ==> realBuff[i] == old(realBuff[i])
  {
    c := CommandIn(tempBuff, beyond);
    var word := CString(tempBuff + beyond);
    var startIndex := GetIndex(STX, word);
    var endIndex := GetIndex(ETX, word);
    var s, e := startIndex + 1, endIndex - 1;
    if s >= 0 && s <= e && e < 24 {
      MoveToFront(tempBuff, s, e, realBuff);
    }
  }

  /** The copying loop of `getData`. */
  method MoveToFront(tempBuff: Buffer, s: nat, e: nat, realBuff: array<byte>)
    requires realBuff.Length == 24 && s <= e < 24
    modifies realBuff
    ensures realBuff[..e + 1 - s] == tempBuff[s..e + 1]
    ensures forall i :: e + 1 - s <= i < 24 ==> realBuff[i] == old(realBuff[i])
  {
    for i := s to e + 1
      invariant forall k :: 0 <= k < 24 ==> realBuff[k] == if k < i - s then tempBuff[s + k] else old(realBuff[k])
    {
      realBuff[i - s] := tempBuff[i];
    }
  }

  function Frame(command: seq<byte>): seq<byte> { [STX] + command + [ETX] }

  /** A frame anywhere in the buffer gives back its command, if nothing behind it is a
      frame byte: the last frame wins, and what precedes it does not matter. */
  lemma FrameRoundTrip(before: seq<byte>, command: seq<byte>, behind: seq<byte>, beyond: seq<byte>)
    requires |before| + |command| + 2 <= 24
    requires 0 !in before && 0 !in command
    requires STX !in command && ETX !in command
    requires var tail := CString((Received(before + Frame(command) + behind) + beyond)[|before| + |command| + 2..]);
      STX !in tail && ETX !in tail
    ensures CommandIn(Received(before + Frame(command) + behind), beyond) == command
    ensures ETX in Received(before + Frame(command) + behind)
  {
    var start := before + Frame(command);
    var buff := Received(start + behind);
    ReceivedPrefix(start, behind);
    var rest := (buff + beyond)[|start|..];
    StartsWith(buff, beyond, start);
    CStringSplit(start, rest);
    LastFrame(before, command, CString(rest));
    CommandInside(before, command, buff);
    assert buff[|start| - 1] == ETX;
  }

  lemma StartsWith(buff: Buffer, beyond: seq<byte>, start: seq<byte>)
    requires |start| <= 24 && buff[..|start|] == start
    ensures buff + beyond == start + (buff + beyond)[|start|..]
  {
    assert (buff + beyond)[..|start|] == buff[..|start|];
  }

  lemma CommandInside(before: seq<byte>, command: seq<byte>, buff: Buffer)
    requires |before| + |command| + 2 <= 24
    requires buff[..|before| + |command| + 2] == before + Frame(command)
    ensures buff[|before| + 1..|before| + 1 + |command|] == command
    ensures buff[|before| + |command| + 1] == ETX
  {
    var start := before + Frame(command);
    assert start[|before| + 1..|before| + 1 + |command|] == command;
    assert start[|start| - 1] == ETX;
    assert forall i :: 0 <= i < |start| ==> buff[i] == buff[..|start|][i] == start[i];
  }

  lemma ReceivedPrefix(start: seq<byte>, behind: seq<byte>)
    requires |start| <= 24
    ensures Received(start + behind)[..|start|] == start
  {
  }

  lemma LastFrame(before: seq<byte>, command: seq<byte>, tail: seq<byte>)
    requires STX !in command && ETX !in command && STX !in tail && ETX !in tail
    ensures var s := before + Frame(command) + tail;
      LastIndex(s, STX) == |before| && LastIndex(s, ETX) == |before| + |command| + 1
  {
    var s := before + Frame(command) + tail;
    LastIndexIs(s, ETX, |before| + |command| + 1);
    LastIndexIs(s, STX, |before|);
  }

  lemma {:induction false} CStringSplit(a: seq<byte>, b: seq<byte>)
    requires 0 !in a
    ensures CString(a + b) == a + CString(b)
    decreases |a|
  {
    if a == [] {
      assert a + b == b;
    } else {
      assert (a + b)[1..] == a[1..] + b;
      CStringSplit(a[1..], b);
    }
  }

  lemma LastIndexIs(s: seq<byte>, c: byte, i: nat)
    requires i < |s| && s[i] == c && forall j :: i < j < |s| ==> s[j] != c
    ensures LastIndex(s, c) == i
  {
  }

  /** A frame without STX passes the check and yields everything before ETX. */
  lemma StxIsNotNeeded(command: seq<byte>)
    requires 0 < |command| <= 22 && 0 !in command && STX !in command && ETX !in command
    ensures ETX in Received(command + [ETX]) && STX !in Received(command + [ETX])
    ensures CommandIn(Received(command + [ETX]), []) == command
  {
    var start := command + [ETX];
    var buff := Received(start);
    var n := |start|;
    var rest := buff[n..];
    assert buff == start + rest && buff + [] == buff;
    assert rest[0] == 0 && CString(rest) == [];
    CStringSplit(start, rest);
    assert start + [] == start;
    assert CString(buff + []) == start;
    LastIndexIs(start, ETX, n - 1);
    assert STX !in start;
    assert buff[..n] == start;
    assert buff[0..n - 1] == command;
    assert buff[n - 1] == ETX;
  }
}
