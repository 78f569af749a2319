/** The DNS client: the query it sends and the walk through the response
    (RFC 1035 sections 4.1.1 to 4.1.4). */
module DnsClient {
  import opened Words
  import opened Wrappers
  import opened UdpChip
  import opened PacketReader
  import opened DnsName
  import opened InetAton
  import LeaseClock

  // ----- Messages -----

  type Four = s: seq<byte> | |s| == 4 witness [0, 0, 0, 0]

  datatype Question = Question(labels: seq<Label>, tail: Four)

  datatype Record = Record(name: Name, typ: u16, cls: u16, ttl: Four, data: Payload)

  function EncodeQuestion(q: Question): seq<byte> {
    EncodeLabels(q.labels) + [0] + q.tail
  }

  function EncodeQuestions(qs: seq<Question>): seq<byte> {
    if qs == [] then [] else EncodeQuestion(qs[0]) + EncodeQuestions(qs[1..])
  }

  function EncodeRecord(r: Record): seq<byte> {
    EncodeName(r.name) + (Be16(r.typ) + (Be16(r.cls) + (r.ttl + (Be16(|r.data|) + r.data))))
  }

  function EncodeRecords(rs: seq<Record>): seq<byte> {
    if rs == [] then [] else EncodeRecord(rs[0]) + EncodeRecords(rs[1..])
  }

  ghost predicate GoodQuestions(qs: seq<Question>) {
    forall i :: 0 <= i < |qs| ==> Short(qs[i].labels)
  }

  predicate GoodRecords(rs: seq<Record>) {
    forall i :: 0 <= i < |rs| ==> GoodName(rs[i].name)
  }

  predicate IsAddressRecord(r: Record) { r.typ == 1 && r.cls == 1 }

  /** The intended answer: the data of the first A record of class IN; -9 if that
      record is not four bytes long, -10 if there is none. */
  function FirstAddress(rs: seq<Record>, previous: Ip): (int, Ip) {
    if rs == [] then (-10, previous)
    else if IsAddressRecord(rs[0]) then
      if |rs[0].data| == 4 then (1, rs[0].data) else (-9, previous)
    else FirstAddress(rs[1..], previous)
  }

  /** In plain numbers: the first record of type 1 and class 1 decides, by its length. */
  lemma {:induction false} FirstAddressIs(rs: seq<Record>, previous: Ip, i: nat)
    requires i < |rs| && rs[i].typ == 1 && rs[i].cls == 1
    requires forall j :: 0 <= j < i ==> !(rs[j].typ == 1 && rs[j].cls == 1)
    ensures FirstAddress(rs, previous) == if |rs[i].data| == 4 then (1, rs[i].data) else (-9, previous)
    decreases |rs|
  {
    if i > 0 { FirstAddressIs(rs[1..], previous, i - 1); }
  }

  lemma {:induction false} NoAddressIs(rs: seq<Record>, previous: Ip)
    requires forall j :: 0 <= j < |rs| ==> !(rs[j].typ == 1 && rs[j].cls == 1)
    ensures FirstAddress(rs, previous) == (-10, previous)
    decreases |rs|
  {
    if rs != [] { NoAddressIs(rs[1..], previous); }
  }

  // ----- One record -----

  /** Behind the name come type, class, time to live, length and data, then `more`. */
  function AfterRecordName(r: Record, more: seq<byte>): seq<byte> {
    Be16(r.typ) + (Be16(r.cls) + (r.ttl + (Be16(|r.data|) + (r.data + more))))
  }

  lemma RecordNameSkipped(r: Record, more: seq<byte>, len: byte)
    requires GoodName(r.name)
    ensures AfterAnswerName(EncodeRecord(r) + more, len) == AfterRecordName(r, more)
  {
    AnswerNameSkipped(r.name, AfterRecordName(r, more), len);
    Nest(r, more);
  }

  lemma Nest(r: Record, more: seq<byte>)
    ensures EncodeRecord(r) + more == EncodeName(r.name) + AfterRecordName(r, more)
  {
    var n, t, c := EncodeName(r.name), Be16(r.typ), Be16(r.cls);
    var l, d := Be16(|r.data|), r.data;
    assert (l + d) + more == l + (d + more);
    assert (r.ttl + (l + d)) + more == r.ttl + (l + (d + more));
    assert (c + (r.ttl + (l + d))) + more == c + (r.ttl + (l + (d + more)));
    assert (t + (c + (r.ttl + (l + d)))) + more == t + (c + (r.ttl + (l + (d + more))));
  }

  // ----- Records in any bytes -----

  /** The cursor behind the name of a record: what the uninitialised length variable
      held does not matter. */
  function BehindName(s: seq<byte>): seq<byte> { AfterAnswerName(s, 0) }

  lemma {:induction false} AnyLength(s: seq<byte>, len: byte)
    ensures AfterAnswerName(s, len) == BehindName(s)
  {
    if s == [] && 0 < len < 64 { assert AfterAnswerName(Skip(s, 1 + len as int), 255) == []; }
  }

  /** Type, class and data length of a record, behind its name. */
  function HeadType(b: seq<byte>): u16 requires |b| >= 10 { FromBe16(b[..2]) }
  function HeadClass(b: seq<byte>): u16 requires |b| >= 10 { FromBe16(b[2..4]) }
  function HeadLength(b: seq<byte>): u16 requires |b| >= 10 { FromBe16(b[8..10]) }

  predicate SaysAddress(b: seq<byte>)
    requires |b| >= 10
  {
    HeadType(b) == 1 && HeadClass(b) == 1
  }

  /** Four bytes read over an address, as far as there are any. */
  function Taken(previous: Ip, data: seq<byte>): Ip { Over(previous, data) }

  /** What the record loop makes of any bytes: the first record that says A and IN
      decides.  Its length is looked at, but not whether its data is there.  None if a
      record ends before its data length; the client then goes by what its variables
      held. */
  function Walk(s: seq<byte>, n: nat, previous: Ip): Option<(int, Ip)>
    decreases n
  {
    if n == 0 then Some((-10, previous))
    else
      var b := BehindName(s);
      if |b| < 10 then None
      else if !SaysAddress(b) then Walk(Skip(b[10..], HeadLength(b)), n - 1, previous)
      else if HeadLength(b) != 4 then Some((-9, previous))
      else Some((1, Taken(previous, b[10..])))
  }

  /** A well-formed record, in bytes. */
  lemma RecordInBytes(r: Record, more: seq<byte>)
    requires GoodName(r.name)
    ensures var b := BehindName(EncodeRecord(r) + more);
      && |b| >= 10 && HeadType(b) == r.typ && HeadClass(b) == r.cls && HeadLength(b) == |r.data|
      && b[10..] == r.data + more
  {
    RecordNameSkipped(r, more, 0);
    RecordFields(r, more);
  }

  /** On well-formed records the walk finds what is intended. */
  lemma {:induction false} WalkFindsFirstAddress(rs: seq<Record>, tail: seq<byte>, previous: Ip)
    requires GoodRecords(rs)
    ensures Walk(EncodeRecords(rs) + tail, |rs|, previous) == Some(FirstAddress(rs, previous))
    decreases |rs|
  {
    if rs != [] {
      var r, more := rs[0], EncodeRecords(rs[1..]) + tail;
      assert EncodeRecords(rs) + tail == EncodeRecord(r) + more;
      RecordInBytes(r, more);
      DataThenMore(r.data, more);
      WalkFindsFirstAddress(rs[1..], tail, previous);
    }
  }

  /** A record that says A, IN and four bytes counts as an address however many are
      there: what is missing stays as it was.  The result is the record's, whatever was
      there before, exactly if four bytes are. */
  lemma AddressIsWholeIff(b: seq<byte>, n: nat)
    requires |b| >= 10 && SaysAddress(b) && HeadLength(b) == 4
    ensures forall s: seq<byte>, previous: Ip ::
      BehindName(s) == b ==> Walk(s, n + 1, previous) == Some((1, Taken(previous, b[10..])))
    ensures (forall p: Ip, q: Ip :: Taken(p, b[10..]) == Taken(q, b[10..])) <==> |b| >= 14
  {
    var p: Ip, q: Ip := [0, 0, 0, 0], [1, 1, 1, 1];
    if |b| < 14 { assert Taken(p, b[10..])[3] != Taken(q, b[10..])[3]; }
  }

  /** Such a response: a compressed name, A, IN, a time to live, length 4, and the end. */
  lemma MissingAddressIsSuccess(previous: Ip)
    ensures Walk([0xC0, 0x0C, 0, 1, 0, 1, 0, 0, 0, 0, 0, 4], 1, previous) == Some((1, previous))
  {
    var s: seq<byte> := [0xC0, 0x0C, 0, 1, 0, 1, 0, 0, 0, 0, 0, 4];
    var b: seq<byte> := [0, 1, 0, 1, 0, 0, 0, 0, 0, 4];
    assert BehindName(s) == Skip(s, 2) == b;
    assert b[..2] == [0, 1] && b[2..4] == [0, 1] && b[8..10] == [0, 4] && b[10..] == [];
    assert HeadType(b) == 1 && HeadClass(b) == 1 && HeadLength(b) == 4;
    assert Taken(previous, []) == previous;
    AddressIsWholeIff(b, 0);
  }

  // ----- The question section -----

  predicate QuestionsComplete(s: seq<byte>, n: nat)
    decreases n
  {
    n > 0 ==> NameComplete(s) && QuestionsComplete(Skip(AfterName(s), 4), n - 1)
  }

  function AfterQuestions(s: seq<byte>, n: nat): seq<byte>
    requires QuestionsComplete(s, n)
    decreases n
  {
    if n == 0 then s else AfterQuestions(Skip(AfterName(s), 4), n - 1)
  }

  /** Well-formed questions are complete, and skipping them stops right behind. */
  lemma {:induction false} QuestionsSkipped(qs: seq<Question>, tail: seq<byte>)
    requires GoodQuestions(qs)
    ensures QuestionsComplete(EncodeQuestions(qs) + tail, |qs|)
    ensures AfterQuestions(EncodeQuestions(qs) + tail, |qs|) == tail
    decreases |qs|
  {
    if qs == [] {
      assert [] + tail == tail;
    } else {
      var q, s' := qs[0], EncodeQuestions(qs[1..]) + tail;
      assert EncodeQuestions(qs) + tail == EncodeLabels(q.labels) + [0] + (q.tail + s');
      QuestionSkipsEncoded(q.labels, q.tail + s');
      assert Skip(q.tail + s', 4) == s';
      QuestionsSkipped(qs[1..], tail);
    }
  }

  // ----- The whole response -----

  /** The second word of a header, field by field. */
  datatype Flags = Flags(
    qr: bool, opcode: nat, aa: bool, tc: bool, rd: bool, ra: bool, z: nat, rcode: nat)

  function Bit(b: bool): nat { if b then 1 else 0 }

  function EncodeFlags(f: Flags): u16
    requires f.opcode < 16 && f.z < 8 && f.rcode < 16
  {
    Bit(f.qr) * 0x8000 + f.opcode * 0x800 + Bit(f.aa) * 0x400 + Bit(f.tc) * 0x200 + Bit(f.rd) * 0x100
    + Bit(f.ra) * 0x80 + f.z * 0x10 + f.rcode
  }

  type GoodFlags = f: Flags | f.opcode < 16 && f.z < 8 && f.rcode < 16
    witness Flags(false, 0, false, false, false, false, 0, 0)

  datatype Response = Response(
    id: u16, flags: GoodFlags, questions: seq<Question>, answers: seq<Record>, otherCounts: Four, others: seq<byte>)

  function EncodeResponse(m: Response): seq<byte>
    requires |m.questions| < 0x1_0000 && |m.answers| < 0x1_0000
  {
    Le16(m.id) + Be16(EncodeFlags(m.flags)) + Be16(|m.questions|) + Be16(|m.answers|) + m.otherCounts
    + (EncodeQuestions(m.questions) + (EncodeRecords(m.answers) + m.others))
  }

  ghost predicate GoodResponse(m: Response) {
    && |m.questions| < 0x1_0000 && |m.answers| < 0x1_0000
    && GoodQuestions(m.questions) && GoodRecords(m.answers)
  }

  function IsResponse(flags: u16): bool { flags / 0x8000 == 1 }

  /** Truncation bit, or a response code other than 0. */
  function HasError(flags: u16): bool { flags / 0x200 % 2 == 1 || flags % 16 != 0 }

  /** Those two tests look at the right bits. */
  lemma FlagBits(f: GoodFlags)
    ensures IsResponse(EncodeFlags(f)) <==> f.qr
    ensures HasError(EncodeFlags(f)) <==> f.tc || f.rcode != 0
  {
    var high, low := Bit(f.rd) * 0x100 + Bit(f.ra) * 0x80 + f.z * 0x10 + f.rcode, f.rcode;
    var top := Bit(f.qr) * 0x20 + f.opcode * 2 + Bit(f.aa);
    assert EncodeFlags(f) == (top * 2 + Bit(f.tc)) * 0x200 + high && high < 0x200;
    assert EncodeFlags(f) / 0x200 == top * 2 + Bit(f.tc);
    assert EncodeFlags(f) ==
      (Bit(f.qr) * 0x800 + f.opcode * 0x80 + Bit(f.aa) * 0x40 + Bit(f.tc) * 0x20 + Bit(f.rd) * 0x10
       + Bit(f.ra) * 8 + f.z) * 16 + low;
  }

  /** What the client should return for a response to request `id`. */
  function Intended(m: Response, id: u16, previous: Ip): (int, Ip) {
    if m.id != id || !m.flags.qr then (-4, previous)
    else if m.flags.tc || m.flags.rcode != 0 then (-5, previous)
    else if |m.answers| == 0 then (-6, previous)
    else FirstAddress(m.answers, previous)
  }

  /** The header fields of a received payload. */
  function FlagsOf(s: seq<byte>): u16 requires |s| >= 12 { FromBe16(s[2..4]) }
  function QuestionCount(s: seq<byte>): u16 requires |s| >= 12 { FromBe16(s[4..6]) }
  function AnswerCount(s: seq<byte>): u16 requires |s| >= 12 { FromBe16(s[6..8]) }

  /** What the client makes of any response of at least 12 bytes to request `id`. */
  function Result(s: seq<byte>, id: u16, previous: Ip): Option<(int, Ip)>
    requires |s| >= 12
  {
    if s[..2] != Le16(id) || !IsResponse(FlagsOf(s)) then Some((-4, previous))
    else if HasError(FlagsOf(s)) then Some((-5, previous))
    else if AnswerCount(s) == 0 then Some((-6, previous))
    else if !QuestionsComplete(s[12..], QuestionCount(s)) then None
    else Walk(AfterQuestions(s[12..], QuestionCount(s)), AnswerCount(s), previous)
  }

  /** On well-formed responses that is what they say. */
  lemma ResultIsIntended(m: Response, id: u16, previous: Ip)
    requires GoodResponse(m)
    ensures |EncodeResponse(m)| >= 12 && Result(EncodeResponse(m), id, previous) == Some(Intended(m, id, previous))
  {
    HeaderOf(m);
    SameId(m.id, id);
    QuestionsSkipped(m.questions, EncodeRecords(m.answers) + m.others);
    WalkFindsFirstAddress(m.answers, m.others, previous);
    ResultByHeader(EncodeResponse(m), m, id, previous);
  }

  lemma ResultByHeader(s: seq<byte>, m: Response, id: u16, previous: Ip)
    requires |s| >= 12 && FlagsOf(s) == EncodeFlags(m.flags) && (s[..2] == Le16(id) <==> m.id == id)
    requires QuestionCount(s) == |m.questions| && AnswerCount(s) == |m.answers|
    requires QuestionsComplete(s[12..], |m.questions|)
    requires var w := Walk(AfterQuestions(s[12..], |m.questions|), |m.answers|, previous);
      w == Some(FirstAddress(m.answers, previous))
    ensures Result(s, id, previous) == Some(Intended(m, id, previous))
  {
    FlagBits(m.flags);
  }

  lemma HeaderOf(m: Response)
    requires |m.questions| < 0x1_0000 && |m.answers| < 0x1_0000
    ensures var s := EncodeResponse(m);
      && |s| >= 12 && s[..2] == Le16(m.id) && FlagsOf(s) == EncodeFlags(m.flags)
      && QuestionCount(s) == |m.questions| && AnswerCount(s) == |m.answers|
      && s[12..] == EncodeQuestions(m.questions) + (EncodeRecords(m.answers) + m.others)
  {
    Be16RoundTrip(EncodeFlags(m.flags)); Be16RoundTrip(|m.questions|); Be16RoundTrip(|m.answers|);
    HeaderSlices(Le16(m.id), Be16(EncodeFlags(m.flags)), Be16(|m.questions|), Be16(|m.answers|), m.otherCounts,
                 EncodeQuestions(m.questions) + (EncodeRecords(m.answers) + m.others));
  }

  lemma HeaderSlices(a: seq<byte>, b: seq<byte>, c: seq<byte>, d: seq<byte>, e: seq<byte>, more: seq<byte>)
    requires |a| == |b| == |c| == |d| == 2 && |e| == 4
    ensures var s := a + b + c + d + e + more;
      s[..2] == a && s[2..4] == b && s[4..6] == c && s[6..8] == d && s[12..] == more
  {
  }

  lemma SameId(a: u16, b: u16)
    ensures Le16(a) == Le16(b) <==> a == b
  {
    if Le16(a) == Le16(b) {
      assert Le16(a)[0] == Le16(b)[0] && Le16(a)[1] == Le16(b)[1];
      assert a == Join(Hi(a), Lo(a)) && b == Join(Hi(b), Lo(b));
    }
  }

  /** Code and address are what the bytes of a response give; if a record is cut short
      before its data length, at least the address stays as it was. */
  predicate Obeys(s: seq<byte>, id: u16, previous: Ip, code: int, address: Ip) {
    if |s| < 12 then code == -3
    else
      var r := Result(s, id, previous);
      code != -3 && if r.Some? then (code, address) == r.value else address == previous
  }

  /** Every well-formed response is obeyed as it is meant. */
  lemma ObeyedIsIntended(m: Response, id: u16, previous: Ip, code: int, address: Ip)
    requires GoodResponse(m) && Obeys(EncodeResponse(m), id, previous, code, address)
    ensures (code, address) == Intended(m, id, previous)
  {
    ResultIsIntended(m, id, previous);
  }

  /** `d` is the well-formed response `m` of that server. */
  ghost predicate Answers(d: Datagram, server: Ip, m: Response) {
    d.ip == server && d.port == 53 && GoodResponse(m) && d.payload == EncodeResponse(m)
  }

  class DnsClient {
    const udp: Reader
    const dnsServer: Ip
    const arrivals: nat -> Option<Datagram>
    var requestId: u16
    var now: nat
    var polls: nat
    var outbox: seq<seq<byte>>

    constructor (dnsServer: Ip, arrivals: nat -> Option<Datagram>, now: nat)
      ensures this.dnsServer == dnsServer && this.arrivals == arrivals && fresh(udp) && outbox == []
    {
      this.dnsServer, this.arrivals, this.now := dnsServer, arrivals, now;
      udp := new Reader();
      requestId, polls, outbox := 0, 0, [];
    }

    // ----- The query -----

    /** `BuildRequest`, up to and including `endPacket`. */
    method SendRequest(name: seq<byte>)
      modifies this`requestId, this`outbox
      ensures requestId == Wrap16(LeaseClock.Millis(now))
      ensures outbox == old(outbox) + [Query(requestId, Labels(name))]
    {
      requestId := Wrap16(LeaseClock.Millis(now));
      var packet := Le16(requestId) + Be16(0x100) + Be16(1) + [0, 0] + [0, 0] + [0, 0];
      var written := WriteName(name);
      packet := packet + written;
      packet := packet + Be16(1);
      packet := packet + Be16(1);
      outbox := outbox + [packet];
    }

    // ----- The response -----

    /** `while (len--) read();` leaves the `uint8_t` at 255. */
    method SkipLabel(len: byte) returns (left: byte)
      modifies udp`rest
      ensures left == 255 && udp.rest == Skip(old(udp.rest), len)
    {
      left := len;
      ghost var done := 0;
      while left != 0
        invariant done + left == len && udp.rest == Skip(old(udp.rest), done)
        decreases left
      {
        var b := udp.Read();
        SkipSkip(old(udp.rest), done, 1);
        done := done + 1;
        left := left - 1;
      }
      left := 255;
    }

    method SkipQuestionName()
      requires NameComplete(udp.rest)
      modifies udp`rest
      ensures udp.rest == AfterName(old(udp.rest))
    {
      var len: byte := *;
      var again := true;
      while again
        invariant again ==> NameComplete(udp.rest) && AfterName(udp.rest) == AfterName(old(udp.rest))
        invariant !again ==> udp.rest == AfterName(old(udp.rest))
        decreases again, |udp.rest|
      {
        ghost var s := udp.rest;
        var read := udp.ReadOver([len]);
        len := read[0];
        if len > 0 {
          len := SkipLabel(len);
          SkipSkip(s, 1, s[0]);
        }
        again := len != 0;
      }
    }

    method SkipQuestions(n: u16)
      requires QuestionsComplete(udp.rest, n)
      modifies udp`rest
      ensures udp.rest == AfterQuestions(old(udp.rest), n)
    {
      for i := 0 to n
        invariant QuestionsComplete(udp.rest, n - i)
        invariant AfterQuestions(udp.rest, n - i) == AfterQuestions(old(udp.rest), n)
      {
        SkipQuestionName();
        udp.Discard(4);
      }
    }

    /** Ends on every byte string and whatever `len` holds to begin with. */
    method SkipAnswerName() returns (ghost len0: byte)
      modifies udp`rest
      ensures udp.rest == AfterAnswerName(old(udp.rest), len0)
    {
      var len: byte := *;
      len0 := len;
      var again := true;
      while again
        invariant again ==> AfterAnswerName(udp.rest, len) == AfterAnswerName(old(udp.rest), len0)
        invariant !again ==> udp.rest == AfterAnswerName(old(udp.rest), len0)
        decreases again, |udp.rest|, len < 64
      {
        ghost var s := udp.rest;
        var read := udp.ReadOver([len]);
        len := read[0];
        if len < 64 {
          if len > 0 {
            SkipSkip(s, 1, len);
            len := SkipLabel(len);
          }
        } else {
          var b := udp.Read();
          SkipSkip(s, 1, 1);
          len := 0;
        }
        again := len != 0;
      }
    }

    /** One record: 0 to go on with the next, 1 or -9 to stop. */
    method ProcessRecord(address0: Ip) returns (code: int, address: Ip)
      modifies udp`rest
      ensures code in {0, 1, -9} && (code == -9 ==> udp.rest == [])
      ensures address == if code == 1 then Taken(address0, Skip(BehindName(old(udp.rest)), 10)) else address0
      ensures var b := BehindName(old(udp.rest));
        if |b| >= 10 then
          && code == (if !SaysAddress(b) then 0 else if HeadLength(b) == 4 then 1 else -9)
          && (code == 0 ==> udp.rest == Skip(b[10..], HeadLength(b)))
        else
          code != 1 ==> udp.rest == []
    {
      address := address0;
      var answerType, answerClass, length := ReadRecordHead();
      if answerType == 1 && answerClass == 1 {
        if length != 4 {
          udp.Flush();
          return -9, address;
        }
        address := udp.ReadOver(address);
        return 1, address;
      }
      udp.Discard(length);
      code := 0;
    }

    /** Name, type, class, time to live and data length. */
    method ReadRecordHead() returns (typ: u16, cls: u16, length: u16)
      modifies udp`rest
      ensures var b := BehindName(old(udp.rest));
        && udp.rest == Skip(b, 10)
        && (|b| >= 10 ==> typ == HeadType(b) && cls == HeadClass(b) && length == HeadLength(b))
    {
      ghost var s := udp.rest;
      ghost var len0 := SkipAnswerName();
      AnyLength(s, len0);
      var answerType, answerClass, answerLength := ReadFields();
      typ, cls, length := FromBe16(answerType), FromBe16(answerClass), FromBe16(answerLength);
    }

    /** Type, class, four bytes of time to live, and length: variables that keep what
        they held if the packet is short. */
    method ReadFields() returns (typ: seq<byte>, cls: seq<byte>, length: seq<byte>)
      modifies udp`rest
      ensures |typ| == |cls| == |length| == 2 && udp.rest == Skip(old(udp.rest), 10)
      ensures |old(udp.rest)| >= 10 ==>
        typ == old(udp.rest)[..2] && cls == old(udp.rest)[2..4] && length == old(udp.rest)[8..10]
    {
      var a: byte, b: byte := *, *;
      typ := udp.ReadOver([a, b]);
      cls := udp.ReadOver([a, b]);
      udp.Discard(4);
      length := udp.ReadOver([a, b]);
    }

    /** The record loop: it ends on any bytes, with what `Walk` says of them. */
    method ProcessAnswers(answerCount: u16, address0: Ip) returns (code: int, address: Ip)
      modifies udp`rest
      ensures code in {1, -9, -10} && (code != 1 ==> address == address0 && udp.rest == [])
      ensures var w := Walk(old(udp.rest), answerCount, address0);
        if w.Some? then (code, address) == w.value else address == address0
    {
      address := address0;
      ghost var w := Walk(udp.rest, answerCount, address0);
      for i := 0 to answerCount
        invariant address == address0
        invariant w.Some? ==> Walk(udp.rest, answerCount - i, address0) == w
        invariant w.None? ==> Walk(udp.rest, answerCount - i, address0).None? || udp.rest == []
      {
        code, address := ProcessRecord(address);
        if code != 0 { return; }
      }
      udp.Flush();
      code := -10;
    }

    /** `parsePacket` in a loop, for `timeout` ms. */
    method AwaitPacket(timeout: u16) returns (got: Option<Datagram>)
      modifies this`now, this`polls, udp
      ensures Waited(arrivals, timeout, got, old(polls), old(now), polls, now)
      ensures got.Some? ==>
        udp.rest == got.value.payload && udp.remoteIp == got.value.ip && udp.remotePort == got.value.port
    {
      var startTime := LeaseClock.Millis(now);
      while true
        invariant old(now) <= now <= old(now) + timeout + 50
        invariant old(polls) <= polls && now == old(now) + 50 * (polls - old(polls))
        invariant Silent(arrivals, old(polls), polls)
        decreases old(now) + timeout + 50 - now
      {
        got := arrivals(polls);
        polls := polls + 1;
        if got.Some? && got.value.payload != [] {
          udp.Open(got.value);
          return;
        }
        got := None;
        LeaseClock.Elapsed(old(now), now);
        if Wrap32(LeaseClock.Millis(now) - startTime) > timeout { return; }
        now := now + 50;
      }
    }

    /** Whatever passes the header checks has a complete question section; without
        that the question loop would not end. */
    ghost predicate QuestionsEnd()
      reads this
    {
      forall i :: arrivals(i).Some? ==> QuestionsEndIn(arrivals(i).value.payload, requestId)
    }

    /** `ProcessResponse`: the first datagram that comes, or -1 if none does in time.  From
        the right server, and with a whole header, it yields what `Result` says of its
        bytes; any other yields an error code. */
    method ProcessResponse(timeout: u16, address0: Ip) returns (code: int, address: Ip, ghost got: Option<Datagram>)
      requires QuestionsEnd()
      modifies this`now, this`polls, udp
      ensures Waited(arrivals, timeout, got, old(polls), old(now), polls, now)
      ensures code in {1, -1, -2, -3, -4, -5, -6, -9, -10} && (code != 1 ==> address == address0)
      ensures code == -1 <==> got.None?
      ensures code == -2 <==> got.Some? && (got.value.ip != dnsServer || got.value.port != 53)
      ensures got.Some? && got.value.ip == dnsServer && got.value.port == 53 ==>
        Obeys(got.value.payload, requestId, address0, code, address)
    {
      address := address0;
      var packet := AwaitPacket(timeout);
      got := packet;
      if packet.None? {
        return -1, address, got;
      }
      assert arrivals(polls - 1) == got;
      if dnsServer != udp.remoteIp || udp.remotePort != 53 {
        return -2, address, got;
      }
      if |udp.rest| < 12 {
        return -3, address, got;
      }
      code, address := ProcessBody(address0);
    }

    /** Header checks, questions and answers of a response long enough to have them. */
    method ProcessBody(address0: Ip) returns (code: int, address: Ip)
      requires |udp.rest| >= 12 && QuestionsEndIn(udp.rest, requestId)
      modifies udp`rest
      ensures code in {1, -4, -5, -6, -9, -10} && (code != 1 ==> address == address0)
      ensures Obeys(old(udp.rest), requestId, address0, code, address)
    {
      address := address0;
      ghost var s := udp.rest;
      var header := udp.ReadOver(seq(12, _ => 0));
      HeaderRead(s);
      var headerFlags := FromBe16(header[2..4]);
      if Le16(requestId) != header[..2] || !IsResponse(headerFlags) {
        udp.Flush();
        return -4, address;
      }
      if HasError(headerFlags) {
        udp.Flush();
        return -5, address;
      }
      var answerCount := FromBe16(header[6..8]);
      if answerCount == 0 {
        udp.Flush();
        return -6, address;
      }
      SkipQuestions(FromBe16(header[4..6]));
      code, address := ProcessAnswers(answerCount, address0);
    }

    /** `getHostByName`: a string the numeric shortcut accepts never reaches the
        network; otherwise one query is sent and up to three times 5 s awaited. */
    method GetHostByName(name: seq<byte>, address0: Ip, socketFree: bool, sendOk: bool)
      returns (ret: int, address: Ip, ghost got: Option<Datagram>)
      requires forall i ::
        arrivals(i).Some? ==> QuestionsEndIn(arrivals(i).value.payload, Wrap16(LeaseClock.Millis(now)))
      modifies this, udp
      ensures Accepted(Values(Segments(name))) ==>
        ret == 1 && address == Octets(Values(Segments(name)), address0) && outbox == old(outbox) && polls == old(polls)
      ensures !Accepted(Values(Segments(name))) && dnsServer == [0, 0, 0, 0] ==>
        ret == -2 && outbox == old(outbox) && polls == old(polls)
      ensures !Accepted(Values(Segments(name))) && dnsServer != [0, 0, 0, 0] ==>
        if !socketFree then ret == 0 && outbox == old(outbox) && polls == old(polls)
        else
          && outbox == old(outbox) + [Query(requestId, Labels(name))]
          && if !sendOk then ret == 0 && polls == old(polls)
             else
               && Came(arrivals, got, old(polls), polls)
               && (got.None? ==> now - old(now) > 15000)
               && Concludes(got, Stored(name, address0), ret, address)
      ensures forall m :: got.Some? && Answers(got.value, dnsServer, m) ==>
        (ret, address) == Intended(m, requestId, Stored(name, address0))
      ensures ret != 1 ==> address == Stored(name, address0)
      ensures old(now) <= now <= old(now) + 3 * 5050
    {
      got := None;
      ret := 0;
      var numeric;
      numeric, address := Aton(name, address0);
      if numeric {
        return 1, address, got;
      }
      if dnsServer == [0, 0, 0, 0] {
        return -2, address, got;
      }
      if socketFree {
        SendRequest(name);
        if sendOk {
          var waitRetries := 0;
          ret := -1;
          while waitRetries < 3 && ret == -1
            invariant 0 <= waitRetries <= 3 && old(now) <= now <= old(now) + waitRetries * 5050
            invariant requestId == Wrap16(LeaseClock.Millis(old(now)))
            invariant outbox == old(outbox) + [Query(requestId, Labels(name))]
            invariant old(polls) <= polls && Came(arrivals, got, old(polls), polls)
            invariant got.None? ==> now - old(now) >= waitRetries * 5001
            invariant ret != 1 ==> address == Stored(name, address0)
            invariant Concludes(got, Stored(name, address0), ret, address)
          {
            ret, address, got := ProcessResponse(5000, address);
            waitRetries := waitRetries + 1;
          }
        }
      }
      udp.Flush();
      forall m | got.Some? && Answers(got.value, dnsServer, m)
        ensures (ret, address) == Intended(m, requestId, Stored(name, address0))
      {
        ObeyedIsIntended(m, requestId, Stored(name, address0), ret, address);
      }
    }

    /** The outcome is a timeout, a foreign datagram, or what the bytes give. */
    ghost predicate Concludes(got: Option<Datagram>, previous: Ip, ret: int, address: Ip)
      reads this
    {
      && (ret == -1 <==> got.None?)
      && (ret == -2 <==> got.Some? && (got.value.ip != dnsServer || got.value.port != 53))
      && (got.Some? && got.value.ip == dnsServer && got.value.port == 53 ==>
            Obeys(got.value.payload, requestId, previous, ret, address))
    }
  }

  /** If the payload passes the header checks its question section is complete. */
  ghost predicate QuestionsEndIn(s: seq<byte>, id: u16) {
    |s| >= 12 && s[..2] == Le16(id) && IsResponse(FlagsOf(s)) && !HasError(FlagsOf(s)) && AnswerCount(s) != 0 ==>
      QuestionsComplete(s[12..], QuestionCount(s))
  }

  lemma HeaderRead(s: seq<byte>)
    requires |s| >= 12
    ensures Over(seq(12, _ => 0), s) == s[..12] && Skip(s, 12) == s[12..]
    ensures s[..12][..2] == s[..2] && s[..12][2..4] == s[2..4] && s[..12][4..6] == s[4..6] && s[..12][6..8] == s[6..8]
  {
  }

  lemma RecordFields(r: Record, more: seq<byte>)
    ensures var s := AfterRecordName(r, more);
      && |s| >= 10 && s[..2] == Be16(r.typ) && s[2..4] == Be16(r.cls) && s[8..10] == Be16(|r.data|)
      && Skip(s, 10) == r.data + more
      && FromBe16(Be16(r.typ)) == r.typ && FromBe16(Be16(r.cls)) == r.cls
      && FromBe16(Be16(|r.data|)) == |r.data|
  {
    Be16RoundTrip(r.typ); Be16RoundTrip(r.cls); Be16RoundTrip(|r.data|);
    RecordSlices(Be16(r.typ), Be16(r.cls), r.ttl, Be16(|r.data|), r.data + more);
  }

  lemma DataThenMore(data: seq<byte>, more: seq<byte>)
    ensures Skip(data + more, |data|) == more
    ensures |data| == 4 ==> forall a: Ip :: Over(a, data + more) == data
  {
  }

  lemma RecordSlices(t: seq<byte>, c: seq<byte>, ttl: seq<byte>, l: seq<byte>, more: seq<byte>)
    requires |t| == |c| == |l| == 2 && |ttl| == 4
    ensures var s := t + (c + (ttl + (l + more)));
      |s| >= 10 && s[..2] == t && s[2..4] == c && s[8..10] == l && Skip(s, 10) == more
  {
  }

  /** The query for a list of labels. */
  function Query(id: u16, labels: seq<Label>): seq<byte> {
    Le16(id) + Be16(0x100) + Be16(1) + [0, 0] + [0, 0] + [0, 0]
    + (EncodeLabels(labels) + [0]) + Be16(1) + Be16(1)
  }

  /** The query asks one question, for the labels of the name, type A, class IN; the
      client's own question loop consumes exactly that name plus four bytes. */
  lemma QueryRoundTrip(id: u16, name: seq<byte>)
    requires forall i :: 0 <= i < |Labels(name)| ==> |Labels(name)[i]| <= 63
    ensures var s := Query(id, Labels(name));
      && |s| >= 12 && s[..12] == Le16(id) + [1, 0, 0, 1, 0, 0, 0, 0, 0, 0]
      && DecodeName(s[12..]) == Some((Labels(name), |s| - 16))
      && s[|s| - 4..] == [0, 1, 0, 1]
      && QuestionsComplete(s[12..], 1) && AfterQuestions(s[12..], 1) == []
  {
    var labels := Labels(name);
    var s := Query(id, labels);
    var tail: seq<byte> := [0, 1, 0, 1];
    LabelsAreNotEmpty(name);
    QuerySlices(Le16(id), EncodeLabels(labels));
    DecodeEncoded(labels, tail);
    QuestionSkipsEncoded(labels, tail);
    OneQuestion(EncodeLabels(labels) + [0] + tail, tail);
  }

  lemma QuerySlices(id: seq<byte>, labels: seq<byte>)
    requires |id| == 2
    ensures var s := id + Be16(0x100) + Be16(1) + [0, 0] + [0, 0] + [0, 0] + (labels + [0]) + Be16(1) + Be16(1);
      && s[..12] == id + [1, 0, 0, 1, 0, 0, 0, 0, 0, 0]
      && s[12..] == labels + [0] + [0, 1, 0, 1] && s[|s| - 4..] == [0, 1, 0, 1]
  {
  }

  lemma OneQuestion(s: seq<byte>, tail: seq<byte>)
    requires NameComplete(s) && AfterName(s) == tail && |tail| == 4
    ensures QuestionsComplete(s, 1) && AfterQuestions(s, 1) == []
  {
    assert Skip(tail, 4) == [];
    assert QuestionsComplete([], 0) && AfterQuestions([], 0) == [];
  }
}
