/** The DHCP option area: the client's option switch, step by step, and the option
    format of RFC 2132 section 2 it is meant to decode. */
module DhcpOptions {
  import opened Words
  import opened Wrappers
  import opened UdpChip
  import opened PacketReader

  const PAD: byte := 0
  const SUBNET_MASK: byte := 1
  const ROUTERS: byte := 3
  const DNS: byte := 6
  const HOST_NAME: byte := 12
  const DOMAIN_NAME: byte := 15
  const REQUESTED_IP: byte := 50
  const LEASE_TIME: byte := 51
  const MESSAGE_TYPE: byte := 53
  const SERVER_ID: byte := 54
  const PARAM_REQUEST: byte := 55
  const T1_VALUE: byte := 58
  const T2_VALUE: byte := 59
  const CLIENT_ID: byte := 61
  const END: byte := 255

  /** The client's fields that options can change, and the message type. */
  datatype Fields = Fields(
    typ: byte, subnetMask: Ip, gateway: Ip, server: Ip, dns: Ip,
    leaseTime: u32, t1: u32, t2: u32, renewInSec: int)

  /** A 32-bit variable filled from the wire and passed through `ntohl`. */
  function Word(previous: u32, rest: seq<byte>): u32 {
    FromBe32(Over(Le32(previous), rest))
  }

  /** One pass of the option loop: the option code is `rest[0]`. */
  function Step(f: Fields, rest: seq<byte>, remoteIp: Ip): (r: (Fields, seq<byte>))
    requires rest != []
    ensures |r.1| < |rest|
  {
    var code, s := rest[0], rest[1..];
    var len := NextByte(s);
    var data := Skip(s, 1);
    if code == END || code == PAD then (f, s)
    else if code == MESSAGE_TYPE then (f.(typ := NextByte(data)), Skip(data, 1))
    else if code == SUBNET_MASK then (f.(subnetMask := Over(f.subnetMask, data)), Skip(data, 4))
    else if code == ROUTERS then (f.(gateway := Over(f.gateway, data)), Skip(data, Max(4, len)))
    else if code == DNS then (f.(dns := Over(f.dns, data)), Skip(data, Max(4, len)))
    else if code == SERVER_ID then
      if f.server == [0, 0, 0, 0] || f.server == remoteIp then
        (f.(server := Over(f.server, data)), Skip(data, 4))
      else
        (f, Skip(data, len))
    else if code == T1_VALUE then (f.(t1 := Word(f.t1, data)), Skip(data, 4))
    else if code == T2_VALUE then (f.(t2 := Word(f.t2, data)), Skip(data, 4))
    else if code == LEASE_TIME then
      var lease := Word(f.leaseTime, data);
      (f.(leaseTime := lease, renewInSec := Signed32(lease)), Skip(data, 4))
    else (f, Skip(data, len))
  }

  /** The whole loop: every byte of the datagram is consumed, whatever it holds. */
  function Parse(f: Fields, rest: seq<byte>, remoteIp: Ip): Fields
    decreases |rest|
  {
    if rest == [] then f
    else
      var (f', rest') := Step(f, rest, remoteIp);
      Parse(f', rest', remoteIp)
  }

  // ----- Reference: RFC 2132 section 2 -----

  datatype Opt = Opt(code: byte, data: seq<byte>)

  /** Code, length and data of the option at the front take this many bytes. */
  function Extent(s: seq<byte>): (n: nat)
    requires |s| >= 2
    ensures n >= 2
  {
    var len: int := s[1];
    2 + len
  }

  /** Tag-length-value decoding: pads are skipped, the end option ends the area. */
  function Decode(s: seq<byte>): Option<seq<Opt>>
    decreases |s|
  {
    if s == [] || s[0] == END then Some([])
    else if s[0] == PAD then Decode(s[1..])
    else if |s| < 2 || |s| < Extent(s) then None
    else
      var tail := Decode(s[Extent(s)..]);
      if tail.None? then None else Some([Opt(s[0], s[2..Extent(s)])] + tail.value)
  }

  /** Lengths RFC 2132 prescribes for the options the client looks at. */
  predicate Fits(o: Opt) {
    if o.code == MESSAGE_TYPE then |o.data| == 1
    else if o.code in {SUBNET_MASK, SERVER_ID, T1_VALUE, T2_VALUE, LEASE_TIME} then |o.data| == 4
    else if o.code in {ROUTERS, DNS} then |o.data| >= 4
    else true
  }

  /** What one option means to the client. */
  function Meaning(f: Fields, o: Opt, remoteIp: Ip): Fields
    requires Fits(o)
  {
    if o.code == MESSAGE_TYPE then f.(typ := o.data[0])
    else if o.code == SUBNET_MASK then f.(subnetMask := o.data)
    else if o.code == ROUTERS then f.(gateway := o.data[..4])
    else if o.code == DNS then f.(dns := o.data[..4])
    else if o.code == SERVER_ID then
      if f.server == [0, 0, 0, 0] || f.server == remoteIp then f.(server := o.data) else f
    else if o.code == T1_VALUE then f.(t1 := FromBe32(o.data))
    else if o.code == T2_VALUE then f.(t2 := FromBe32(o.data))
    else if o.code == LEASE_TIME then
      f.(leaseTime := FromBe32(o.data), renewInSec := Signed32(FromBe32(o.data)))
    else f
  }

  predicate AllFit(opts: seq<Opt>) {
    forall i :: 0 <= i < |opts| ==> Fits(opts[i])
  }

  function MeaningOfAll(f: Fields, opts: seq<Opt>, remoteIp: Ip): Fields
    requires AllFit(opts)
    decreases |opts|
  {
    if opts == [] then f else MeaningOfAll(Meaning(f, opts[0], remoteIp), opts[1..], remoteIp)
  }

  predicate Padding(s: seq<byte>) {
    forall i :: 0 <= i < |s| ==> s[i] == PAD || s[i] == END
  }

  /** Behind the end option there is nothing but padding. */
  predicate PaddedAfterEnd(s: seq<byte>)
    decreases |s|
  {
    if s == [] then true
    else if s[0] == END then Padding(s)
    else if s[0] == PAD then PaddedAfterEnd(s[1..])
    else |s| >= 2 && |s| >= Extent(s) && PaddedAfterEnd(s[Extent(s)..])
  }

  lemma {:induction false} PaddingIsIgnored(f: Fields, s: seq<byte>, remoteIp: Ip)
    requires Padding(s)
    ensures Parse(f, s, remoteIp) == f
    decreases |s|
  {
    if s != [] { PaddingIsIgnored(f, s[1..], remoteIp); }
  }

  lemma StepIsMeaning(f: Fields, s: seq<byte>, remoteIp: Ip)
    requires |s| >= 2 && |s| >= Extent(s) && s[0] != PAD && s[0] != END
    requires Fits(Opt(s[0], s[2..Extent(s)]))
    ensures Step(f, s, remoteIp) == (Meaning(f, Opt(s[0], s[2..Extent(s)]), remoteIp), s[Extent(s)..])
  {
    var data, len := Skip(s[1..], 1), s[1] as int;
    assert data == s[2..];
    assert Skip(data, len) == s[2 + len..];
    assert len >= 4 ==> data[..4] == s[2..2 + len][..4];
    assert len == 4 ==> data[..4] == s[2..2 + len];
  }

  /** On every option area that is well formed, with options of the prescribed
      lengths and only padding behind the end option, the client's loop computes
      the meaning of the decoded options. */
  lemma {:induction false} ParseIsMeaning(f: Fields, s: seq<byte>, remoteIp: Ip)
    requires Decode(s).Some? && AllFit(Decode(s).value) && PaddedAfterEnd(s)
    ensures Parse(f, s, remoteIp) == MeaningOfAll(f, Decode(s).value, remoteIp)
    decreases |s|
  {
    if s == [] {
    } else if s[0] == END {
      PaddingIsIgnored(f, s, remoteIp);
    } else if s[0] == PAD {
      ParseIsMeaning(f, s[1..], remoteIp);
    } else {
      var opts := Decode(s).value;
      assert Fits(opts[0]);
      StepIsMeaning(f, s, remoteIp);
      assert opts[1..] == Decode(s[Extent(s)..]).value;
      ParseIsMeaning(Meaning(f, opts[0], remoteIp), s[Extent(s)..], remoteIp);
    }
  }

  /** What stands behind the end option of a well-formed area. */
  function AfterEnd(s: seq<byte>): seq<byte>
    requires Decode(s).Some?
    decreases |s|
  {
    if s == [] then []
    else if s[0] == END then s[1..]
    else if s[0] == PAD then AfterEnd(s[1..])
    else AfterEnd(s[Extent(s)..])
  }

  /** On every well-formed area the loop takes in what the options mean and then goes
      on behind the end option, whatever stands there. */
  lemma {:induction false} ParseGoesOnBehindEnd(f: Fields, s: seq<byte>, remoteIp: Ip)
    requires Decode(s).Some? && AllFit(Decode(s).value)
    ensures Parse(f, s, remoteIp) == Parse(MeaningOfAll(f, Decode(s).value, remoteIp), AfterEnd(s), remoteIp)
    decreases |s|
  {
    if s == [] || s[0] == END {
    } else if s[0] == PAD {
      ParseGoesOnBehindEnd(f, s[1..], remoteIp);
    } else {
      var opts := Decode(s).value;
      assert Fits(opts[0]);
      StepIsMeaning(f, s, remoteIp);
      assert opts[1..] == Decode(s[Extent(s)..]).value;
      ParseGoesOnBehindEnd(Meaning(f, opts[0], remoteIp), s[Extent(s)..], remoteIp);
    }
  }

  /** So a message type behind the end option is still obeyed. */
  lemma TypeBehindEndIsObeyed(f: Fields, s: seq<byte>, typ: byte, remoteIp: Ip)
    requires Decode(s).Some? && AllFit(Decode(s).value) && AfterEnd(s) == [MESSAGE_TYPE, 1, typ]
    ensures Parse(f, s, remoteIp) == MeaningOfAll(f, Decode(s).value, remoteIp).(typ := typ)
  {
    ParseGoesOnBehindEnd(f, s, remoteIp);
    var g, tail := MeaningOfAll(f, Decode(s).value, remoteIp), AfterEnd(s);
    assert Skip(tail[1..], 1) == [typ];
    assert Step(g, tail, remoteIp) == (g.(typ := typ), []);
  }

  /** All options of a byte string, before and behind end options. */
  function OptionsIn(s: seq<byte>): Option<seq<Opt>>
    decreases |s|
  {
    if s == [] then Some([])
    else if s[0] == PAD || s[0] == END then OptionsIn(s[1..])
    else if |s| < 2 || |s| < Extent(s) then None
    else
      var tail := OptionsIn(s[Extent(s)..]);
      if tail.None? then None else Some([Opt(s[0], s[2..Extent(s)])] + tail.value)
  }

  /** The loop computes what all of them mean: the end option is one more pad. */
  lemma {:induction false} ParseIsMeaningOfAllOptions(f: Fields, s: seq<byte>, remoteIp: Ip)
    requires OptionsIn(s).Some? && AllFit(OptionsIn(s).value)
    ensures Parse(f, s, remoteIp) == MeaningOfAll(f, OptionsIn(s).value, remoteIp)
    decreases |s|
  {
    if s == [] {
    } else if s[0] == PAD || s[0] == END {
      ParseIsMeaningOfAllOptions(f, s[1..], remoteIp);
    } else {
      var opts := OptionsIn(s).value;
      assert Fits(opts[0]);
      StepIsMeaning(f, s, remoteIp);
      assert opts[1..] == OptionsIn(s[Extent(s)..]).value;
      ParseIsMeaningOfAllOptions(Meaning(f, opts[0], remoteIp), s[Extent(s)..], remoteIp);
    }
  }

  /** The data of the last option with this code. */
  function LastOf(opts: seq<Opt>, code: byte): Option<seq<byte>> {
    if opts == [] then None
    else
      var o := opts[|opts| - 1];
      if o.code == code then Some(o.data) else LastOf(opts[..|opts| - 1], code)
  }

  /** A value of four bytes: that of the last such option, or what it was before. */
  predicate LastIs(opts: seq<Opt>, code: byte, before: seq<byte>, after: seq<byte>) {
    match LastOf(opts, code)
    case Some(data) => after == data
    case None => after == before
  }

  /** The same for a list of addresses, of which the first one counts. */
  predicate LastBegins(opts: seq<Opt>, code: byte, before: seq<byte>, after: seq<byte>) {
    match LastOf(opts, code)
    case Some(data) => after <= data
    case None => after == before
  }

  /** The same for a number of four bytes. */
  function Number(opts: seq<Opt>, code: byte, before: u32): u32 {
    match LastOf(opts, code)
    case Some(data) => if |data| == 4 then FromBe32(data) else before
    case None => before
  }

  lemma {:induction false} MeaningSnoc(f: Fields, opts: seq<Opt>, o: Opt, remoteIp: Ip)
    requires AllFit(opts) && Fits(o)
    ensures AllFit(opts + [o])
    ensures MeaningOfAll(f, opts + [o], remoteIp) == Meaning(MeaningOfAll(f, opts, remoteIp), o, remoteIp)
    decreases |opts|
  {
    if opts == [] {
      assert [] + [o] == [o] && [o][1..] == [];
    } else {
      assert (opts + [o])[1..] == opts[1..] + [o];
      MeaningSnoc(Meaning(f, opts[0], remoteIp), opts[1..], o, remoteIp);
    }
  }

  /** What options mean, by their numbers in RFC 2132: the last of a kind counts. */
  lemma {:induction false} MeaningIsLast(f: Fields, opts: seq<Opt>, remoteIp: Ip)
    requires AllFit(opts)
    ensures var g := MeaningOfAll(f, opts, remoteIp);
      && LastIs(opts, 53, [f.typ], [g.typ]) && LastIs(opts, 1, f.subnetMask, g.subnetMask)
      && LastBegins(opts, 3, f.gateway, g.gateway) && LastBegins(opts, 6, f.dns, g.dns)
      && g.leaseTime == Number(opts, 51, f.leaseTime)
      && g.t1 == Number(opts, 58, f.t1) && g.t2 == Number(opts, 59, f.t2)
    decreases |opts|
  {
    if opts != [] {
      var init, o := opts[..|opts| - 1], opts[|opts| - 1];
      assert opts == init + [o];
      MeaningIsLast(f, init, remoteIp);
      MeaningSnoc(f, init, o, remoteIp);
      OneMeans(MeaningOfAll(f, init, remoteIp), o, remoteIp);
    }
  }

  lemma OneMeans(f: Fields, o: Opt, remoteIp: Ip)
    requires Fits(o)
    ensures var g := Meaning(f, o, remoteIp);
      && [g.typ] == (if o.code == 53 then o.data else [f.typ])
      && g.subnetMask == (if o.code == 1 then o.data else f.subnetMask)
      && (if o.code == 3 then g.gateway <= o.data else g.gateway == f.gateway)
      && (if o.code == 6 then g.dns <= o.data else g.dns == f.dns)
      && g.leaseTime == (if o.code == 51 then FromBe32(o.data) else f.leaseTime)
      && g.t1 == (if o.code == 58 then FromBe32(o.data) else f.t1)
      && g.t2 == (if o.code == 59 then FromBe32(o.data) else f.t2)
  {
  }

  predicate NoServerBut(opts: seq<Opt>, server: Ip) {
    forall i :: 0 <= i < |opts| && opts[i].code == 54 ==> opts[i].data == server
  }

  /** The server identifier is taken from a known server or when there was none: an area
      that names one server, and that consistently, is believed then and only then. */
  lemma {:induction false} ServerIsBelieved(f: Fields, opts: seq<Opt>, remoteIp: Ip, server: Ip)
    requires AllFit(opts) && NoServerBut(opts, server)
    ensures MeaningOfAll(f, opts, remoteIp).server ==
      if LastOf(opts, 54).Some? && (f.server == [0, 0, 0, 0] || f.server == remoteIp) then server else f.server
    decreases |opts|
  {
    if opts != [] {
      var init, o := opts[..|opts| - 1], opts[|opts| - 1];
      assert opts == init + [o];
      ServerIsBelieved(f, init, remoteIp, server);
      MeaningSnoc(f, init, o, remoteIp);
    }
  }

  /** Without one, or when another server is known, it stays. */
  lemma {:induction false} ServerIsKept(f: Fields, opts: seq<Opt>, remoteIp: Ip)
    requires AllFit(opts)
    ensures LastOf(opts, 54).None? || (f.server != [0, 0, 0, 0] && f.server != remoteIp) ==>
      MeaningOfAll(f, opts, remoteIp).server == f.server
    decreases |opts|
  {
    if opts != [] {
      var init, o := opts[..|opts| - 1], opts[|opts| - 1];
      assert opts == init + [o];
      ServerIsKept(f, init, remoteIp);
      MeaningSnoc(f, init, o, remoteIp);
    }
  }

  /** A message type option at the very end that lacks its value. */
  predicate CutOffType(t: seq<byte>) { 0 < |t| <= 2 && t[0] == MESSAGE_TYPE }

  /** Whole options, and then perhaps a message type that is cut off: the type is 255
      exactly if it is cut off or the last one given is 255. */
  lemma TypeIs255Iff(f: Fields, s: seq<byte>, t: seq<byte>, remoteIp: Ip)
    requires OptionsIn(s).Some? && AllFit(OptionsIn(s).value) && (t == [] || CutOffType(t))
    ensures Parse(f, s + t, remoteIp).typ == 255 <==> t != [] || LastIs(OptionsIn(s).value, 53, [f.typ], [255])
  {
    var opts := OptionsIn(s).value;
    var g := MeaningOfAll(f, opts, remoteIp);
    WholeThenMore(f, s, t, remoteIp);
    MeaningIsLast(f, opts, remoteIp);
    if t == [] {
      assert [g.typ] == [255] <==> g.typ == 255;
    } else {
      assert Step(g, t, remoteIp) == (g.(typ := 255), []);
    }
  }

  lemma OptionInFront(s: seq<byte>, t: seq<byte>)
    requires |s| >= 2 && |s| >= Extent(s)
    ensures var n := Extent(s);
      (s + t)[0] == s[0] && Extent(s + t) == n && (s + t)[2..n] == s[2..n] && (s + t)[n..] == s[n..] + t
  {
  }

  lemma {:induction false} WholeThenMore(f: Fields, s: seq<byte>, t: seq<byte>, remoteIp: Ip)
    requires OptionsIn(s).Some? && AllFit(OptionsIn(s).value)
    ensures Parse(f, s + t, remoteIp) == Parse(MeaningOfAll(f, OptionsIn(s).value, remoteIp), t, remoteIp)
    decreases |s|
  {
    if s == [] {
      assert [] + t == t;
    } else if s[0] == PAD || s[0] == END {
      assert (s + t)[1..] == s[1..] + t;
      WholeThenMore(f, s[1..], t, remoteIp);
    } else {
      var opts, n := OptionsIn(s).value, Extent(s);
      assert Fits(opts[0]);
      OptionInFront(s, t);
      StepIsMeaning(f, s + t, remoteIp);
      assert opts[1..] == OptionsIn(s[n..]).value;
      WholeThenMore(Meaning(f, opts[0], remoteIp), s[n..], t, remoteIp);
    }
  }

  /** An option the client does not look at, or a server identifier that sets nothing. */
  predicate Ignored(o: Opt, remoteIp: Ip) {
    || o.code !in {MESSAGE_TYPE, SUBNET_MASK, ROUTERS, DNS, SERVER_ID, T1_VALUE, T2_VALUE, LEASE_TIME}
    || (o.code == SERVER_ID && o.data == [0, 0, 0, 0] == remoteIp)
  }

  ghost predicate AllIgnored(opts: seq<Opt>, remoteIp: Ip) {
    forall i :: 0 <= i < |opts| ==> Ignored(opts[i], remoteIp)
  }

  /** Bytes that are whole options, wherever they stand, change nothing for every client
      exactly if all the options are ignored. */
  lemma ChangesNothingIff(tail: seq<byte>, remoteIp: Ip)
    requires OptionsIn(tail).Some? && AllFit(OptionsIn(tail).value)
    ensures (forall f: Fields :: Parse(f, tail, remoteIp) == f) <==> AllIgnored(OptionsIn(tail).value, remoteIp)
  {
    var opts := OptionsIn(tail).value;
    if AllIgnored(opts, remoteIp) {
      forall f: Fields ensures Parse(f, tail, remoteIp) == f {
        ParseIsMeaningOfAllOptions(f, tail, remoteIp);
        IgnoredMeansNothing(f, opts, remoteIp);
      }
    } else {
      var f := NotReached(opts, remoteIp);
      ParseIsMeaningOfAllOptions(f, tail, remoteIp);
    }
  }

  lemma {:induction false} IgnoredMeansNothing(f: Fields, opts: seq<Opt>, remoteIp: Ip)
    requires AllFit(opts) && AllIgnored(opts, remoteIp)
    ensures MeaningOfAll(f, opts, remoteIp) == f
    decreases |opts|
  {
    if opts != [] {
      assert Ignored(opts[0], remoteIp);
      IgnoredMeansNothing(f, opts[1..], remoteIp);
    }
  }

  /** Options that are not all ignored never leave the client in some state `f`. */
  lemma {:induction false} NotReached(opts: seq<Opt>, remoteIp: Ip) returns (f: Fields)
    requires AllFit(opts) && !AllIgnored(opts, remoteIp)
    ensures forall g: Fields :: MeaningOfAll(g, opts, remoteIp) != f
    decreases |opts|
  {
    if AllIgnored(opts[1..], remoteIp) {
      f := NotReachedByOne(opts[0], remoteIp);
      forall g: Fields ensures MeaningOfAll(g, opts, remoteIp) != f {
        IgnoredMeansNothing(Meaning(g, opts[0], remoteIp), opts[1..], remoteIp);
      }
    } else {
      f := NotReached(opts[1..], remoteIp);
      forall g: Fields ensures MeaningOfAll(g, opts, remoteIp) != f {
        assert MeaningOfAll(g, opts, remoteIp) ==
          MeaningOfAll(Meaning(g, opts[0], remoteIp), opts[1..], remoteIp);
      }
    }
  }

  lemma NotReachedByOne(o: Opt, remoteIp: Ip) returns (f: Fields)
    requires Fits(o) && !Ignored(o, remoteIp)
    ensures forall g: Fields :: Meaning(g, o, remoteIp) != f
  {
    var zero: Ip := [0, 0, 0, 0];
    var other: Ip := [if |o.data| > 0 && o.data[0] == 0 then 1 else 0, 0, 0, 0];
    f := Fields(0, zero, zero, zero, zero, 0, 0, 0, 0);
    if o.code == MESSAGE_TYPE {
      f := f.(typ := if o.data[0] == 0 then 1 else 0);
    } else if o.code == SERVER_ID {
      f := f.(server := if o.data != zero then zero else remoteIp);
    } else if o.code in {SUBNET_MASK, ROUTERS, DNS} {
      f := f.(subnetMask := other, gateway := other, dns := other);
    } else {
      var word := if FromBe32(o.data) == 0 then 1 else 0;
      f := f.(leaseTime := word, t1 := word, t2 := word);
    }
    OtherDiffers(o.data, other);
    NotReachedIs(o, remoteIp, f);
  }

  lemma OtherDiffers(data: seq<byte>, other: seq<byte>)
    requires |other| == 4 && other[0] == (if |data| > 0 && data[0] == 0 then 1 else 0)
    ensures |data| >= 4 ==> other != data && other != data[..4]
  {
    if |data| >= 4 { assert data[..4][0] == data[0] != other[0]; }
  }

  lemma NotReachedIs(o: Opt, remoteIp: Ip, f: Fields)
    requires Fits(o) && !Ignored(o, remoteIp)
    requires o.code == MESSAGE_TYPE ==> f.typ != o.data[0]
    requires o.code == SUBNET_MASK ==> f.subnetMask != o.data
    requires o.code == ROUTERS ==> f.gateway != o.data[..4]
    requires o.code == DNS ==> f.dns != o.data[..4]
    requires o.code == SERVER_ID ==> f.server == if o.data != [0, 0, 0, 0] then [0, 0, 0, 0] else remoteIp
    requires o.code == T1_VALUE ==> f.t1 != FromBe32(o.data)
    requires o.code == T2_VALUE ==> f.t2 != FromBe32(o.data)
    requires o.code == LEASE_TIME ==> f.leaseTime != FromBe32(o.data)
    ensures forall g: Fields :: Meaning(g, o, remoteIp) != f
  {
  }

  // ----- Encoding -----

  function Encode(o: Opt): (s: seq<byte>)
    requires |o.data| < 0x100
  {
    [o.code, |o.data|] + o.data
  }

  predicate CanEncode(o: Opt) {
    |o.data| < 0x100 && o.code != PAD && o.code != END
  }

  predicate Encodable(opts: seq<Opt>) {
    forall i :: 0 <= i < |opts| ==> CanEncode(opts[i])
  }

  function EncodeAll(opts: seq<Opt>): seq<byte>
    requires Encodable(opts)
  {
    if opts == [] then [] else Encode(opts[0]) + EncodeAll(opts[1..])
  }

  lemma {:induction false} DecodeEncoded(opts: seq<Opt>, tail: seq<byte>)
    requires Encodable(opts)
    ensures Decode(EncodeAll(opts) + [END] + tail) == Some(opts)
    decreases |opts|
  {
    var s := EncodeAll(opts) + [END] + tail;
    if opts != [] {
      var o := opts[0];
      assert s == Encode(o) + (EncodeAll(opts[1..]) + [END] + tail);
      assert s[2..2 + |o.data|] == o.data;
      assert s[2 + |o.data|..] == EncodeAll(opts[1..]) + [END] + tail;
      DecodeEncoded(opts[1..], tail);
      assert opts == [o] + opts[1..];
    }
  }
}
