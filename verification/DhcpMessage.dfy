/** The DHCP messages the client broadcasts, and the reading of RFC 2131 section 2
    they are meant for. */
module DhcpMessage {
  import opened Words
  import opened Wrappers
  import opened UdpChip
  import opened DhcpOptions

  type Mac = s: seq<byte> | |s| == 6 witness [0, 0, 0, 0, 0, 0]

  const DISCOVER: byte := 1
  const OFFER: byte := 2
  const REQUEST: byte := 3
  const ACK: byte := 5
  const NAK: byte := 6

  const MAGIC_COOKIE: seq<byte> := [0x63, 0x82, 0x53, 0x63]
  /** "WIZnet" */
  const NAME: seq<byte> := [87, 73, 90, 110, 101, 116]

  function Zeros(n: nat): (s: seq<byte>)
    ensures |s| == n
  {
    seq(n, _ => 0)
  }

  function HexDigit(d: nat): byte
    requires d < 16
  {
    if d < 10 then 48 + d else 65 + d - 10
  }

  function HexByte(b: byte): (s: seq<byte>)
    ensures |s| == 2
  {
    [HexDigit(b / 16), HexDigit(b % 16)]
  }

  /** What the client puts into a message. */
  datatype Outgoing = Outgoing(typ: byte, xid: u32, secs: u16, mac: Mac, localIp: Ip, server: Ip)

  function HostName(mac: Mac): (s: seq<byte>)
    ensures |s| == 12
  {
    NAME + HexByte(mac[3]) + HexByte(mac[4]) + HexByte(mac[5])
  }

  /** The options of a message, in order. */
  function OptionsOf(m: Outgoing): (opts: seq<Opt>)
    ensures Encodable(opts)
  {
    [Opt(MESSAGE_TYPE, [m.typ]), Opt(CLIENT_ID, [1] + m.mac), Opt(HOST_NAME, HostName(m.mac))]
    + (if m.typ == REQUEST then [Opt(REQUESTED_IP, m.localIp), Opt(SERVER_ID, m.server)] else [])
    + [Opt(PARAM_REQUEST, [SUBNET_MASK, ROUTERS, DNS, DOMAIN_NAME, T1_VALUE, T2_VALUE])]
  }

  // The pieces handed to `write`, in order.

  function Fixed(m: Outgoing): (s: seq<byte>)
    ensures |s| == 28
  {
    [1, 1, 6, 0] + Be32(m.xid) + Be16(m.secs) + Be16(0x8000) + Zeros(16)
  }

  function HardwareAddress(mac: Mac): (s: seq<byte>)
    ensures |s| == 16
  {
    mac + Zeros(10)
  }

  function Opening(m: Outgoing): (s: seq<byte>)
    ensures |s| == 26
  {
    [MESSAGE_TYPE, 1, m.typ] + [CLIENT_ID, 7, 1] + m.mac + [HOST_NAME, 12] + HostName(m.mac)
  }

  function Identification(m: Outgoing): (s: seq<byte>)
    ensures |s| == 30
  {
    MAGIC_COOKIE + Opening(m)
  }

  function Asked(m: Outgoing): (s: seq<byte>)
    ensures |s| == 12
  {
    [REQUESTED_IP, 4] + m.localIp + [SERVER_ID, 4] + m.server
  }

  const PARAMETERS: seq<byte> := [PARAM_REQUEST, 6, SUBNET_MASK, ROUTERS, DNS, DOMAIN_NAME, T1_VALUE, T2_VALUE, END]

  function Header(m: Outgoing): (s: seq<byte>)
    ensures |s| == 236
  {
    Fixed(m) + HardwareAddress(m.mac) + Zeros(192)
  }

  function Tail(m: Outgoing): seq<byte> {
    (if m.typ == REQUEST then Asked(m) else []) + PARAMETERS
  }

  /** All the `write` calls of one message, concatenated. */
  function Bytes(m: Outgoing): seq<byte> {
    Header(m) + Identification(m) + Tail(m)
  }

  // ----- Reference: the message layout of RFC 2131 section 2 -----

  datatype Message = Message(
    op: byte, htype: byte, hlen: byte, hops: byte, xid: u32, secs: u16, flags: u16,
    ciaddr: Ip, yiaddr: Ip, siaddr: Ip, giaddr: Ip, chaddr: seq<byte>, opts: seq<Opt>)

  function Receive(s: seq<byte>): Option<Message> {
    if |s| < 240 || s[236..240] != MAGIC_COOKIE || Decode(s[240..]).None? then None
    else
      Some(Message(s[0], s[1], s[2], s[3], FromBe32(s[4..8]), FromBe16(s[8..10]), FromBe16(s[10..12]),
                   s[12..16], s[16..20], s[20..24], s[24..28], s[28..44], Decode(s[240..]).value))
  }

  /** What the message is meant to say. */
  function Intended(m: Outgoing): Message {
    Message(1, 1, 6, 0, m.xid, m.secs, 0x8000, [0, 0, 0, 0], [0, 0, 0, 0], [0, 0, 0, 0], [0, 0, 0, 0],
            HardwareAddress(m.mac), OptionsOf(m))
  }

  lemma Slices(a: seq<byte>, b: seq<byte>, c: seq<byte>)
    ensures (a + b + c)[..|a|] == a
    ensures (a + b + c)[|a|..|a| + |b|] == b
    ensures (a + b + c)[|a| + |b|..] == c
  {
  }

  /** Options start at offset 240 and are the intended ones. */
  lemma OptionArea(m: Outgoing)
    ensures |Bytes(m)| == if m.typ == REQUEST then 287 else 275
    ensures Bytes(m)[..236] == Header(m)
    ensures Bytes(m)[236..240] == MAGIC_COOKIE
    ensures Bytes(m)[240..] == EncodeAll(OptionsOf(m)) + [END]
  {
    Slices(Header(m), MAGIC_COOKIE, Opening(m) + Tail(m));
    assert Bytes(m) == Header(m) + MAGIC_COOKIE + (Opening(m) + Tail(m));
    OptionBytes(m);
  }

  lemma OptionBytes(m: Outgoing)
    ensures Opening(m) + Tail(m) == EncodeAll(OptionsOf(m)) + [END]
  {
    var opts := OptionsOf(m);
    var a, b, c, last := opts[0], opts[1], opts[2], opts[|opts| - 1];
    assert Opening(m) == Encode(a) + Encode(b) + Encode(c);
    EncodeOne(last);
    assert PARAMETERS == Encode(last) + [END];
    if m.typ == REQUEST {
      assert Asked(m) == Encode(opts[3]) + Encode(opts[4]);
      EncodeTwo(opts[3], opts[4], [last]);
      EncodeThree(a, b, c, [opts[3], opts[4]] + [last]);
      assert opts == [a, b, c] + ([opts[3], opts[4]] + [last]);
    } else {
      EncodeThree(a, b, c, [last]);
      assert opts == [a, b, c] + [last];
    }
  }

  lemma EncodeOne(a: Opt)
    requires CanEncode(a)
    ensures EncodeAll([a]) == Encode(a)
  {
    assert [a][1..] == [];
  }

  lemma EncodeTwo(a: Opt, b: Opt, tail: seq<Opt>)
    requires CanEncode(a) && CanEncode(b) && Encodable(tail)
    ensures EncodeAll([a, b] + tail) == Encode(a) + Encode(b) + EncodeAll(tail)
  {
    assert ([a, b] + tail)[1..] == [b] + tail;
    assert ([b] + tail)[1..] == tail;
  }

  lemma EncodeThree(a: Opt, b: Opt, c: Opt, tail: seq<Opt>)
    requires CanEncode(a) && CanEncode(b) && CanEncode(c) && Encodable(tail)
    ensures EncodeAll([a, b, c] + tail) == Encode(a) + Encode(b) + Encode(c) + EncodeAll(tail)
  {
    assert ([a, b, c] + tail)[1..] == [b, c] + tail;
    EncodeTwo(b, c, tail);
  }

  /** A receiver reads back everything the client put in. */
  lemma RoundTrip(m: Outgoing)
    ensures Receive(Bytes(m)) == Some(Intended(m))
  {
    OptionArea(m);
    DecodeEncoded(OptionsOf(m), []);
    assert EncodeAll(OptionsOf(m)) + [END] + [] == EncodeAll(OptionsOf(m)) + [END];
    HeaderFields(m);
    HeaderIsRead(m, Bytes(m));
  }

  lemma HeaderIsRead(m: Outgoing, s: seq<byte>)
    requires |s| >= 240 && s[..4] == [1, 1, 6, 0] && s[4..8] == Be32(m.xid)
    requires s[8..10] == Be16(m.secs) && s[10..12] == Be16(0x8000)
    ensures s[0] == 1 && s[1] == 1 && s[2] == 6 && s[3] == 0
    ensures FromBe32(s[4..8]) == m.xid && FromBe16(s[8..10]) == m.secs && FromBe16(s[10..12]) == 0x8000
  {
    assert s[0] == s[..4][0] && s[1] == s[..4][1] && s[2] == s[..4][2] && s[3] == s[..4][3];
    Be32RoundTrip(m.xid);
    Be16RoundTrip(m.secs);
    Be16RoundTrip(0x8000);
  }

  lemma HeaderFields(m: Outgoing)
    ensures |Bytes(m)| >= 240
    ensures Bytes(m)[..4] == [1, 1, 6, 0] && Bytes(m)[4..8] == Be32(m.xid)
    ensures Bytes(m)[8..10] == Be16(m.secs) && Bytes(m)[10..12] == Be16(0x8000)
    ensures Bytes(m)[12..16] == [0, 0, 0, 0] && Bytes(m)[16..20] == [0, 0, 0, 0]
    ensures Bytes(m)[20..24] == [0, 0, 0, 0] && Bytes(m)[24..28] == [0, 0, 0, 0]
    ensures Bytes(m)[28..44] == HardwareAddress(m.mac)
  {
    OptionArea(m);
    var s, h := Bytes(m), Header(m);
    Slices(Fixed(m), HardwareAddress(m.mac), Zeros(192));
    FixedFields(m);
    forall i, j | 0 <= i <= j <= 28 ensures s[i..j] == Fixed(m)[i..j] {
      assert s[i..j] == s[..236][i..j] == h[..28][i..j];
    }
    assert s[28..44] == s[..236][28..44];
  }

  lemma FixedFields(m: Outgoing)
    ensures var s := Fixed(m);
      && s[0..4] == [1, 1, 6, 0] && s[4..8] == Be32(m.xid)
      && s[8..10] == Be16(m.secs) && s[10..12] == Be16(0x8000)
      && s[12..16] == [0, 0, 0, 0] && s[16..20] == [0, 0, 0, 0]
      && s[20..24] == [0, 0, 0, 0] && s[24..28] == [0, 0, 0, 0]
  {
  }

  function HexValue(c: byte): Option<nat> {
    if 48 <= c < 58 then Some(c - 48) else if 65 <= c < 71 then Some(c - 65 + 10) else None
  }

  /** The host name ends in the last three MAC bytes, in hexadecimal. */
  lemma HostNameTellsMac(mac: Mac, i: nat)
    requires i < 3
    ensures var h := HostName(mac);
      && h[..6] == NAME
      && HexValue(h[6 + 2 * i]).Some? && HexValue(h[7 + 2 * i]).Some?
      && HexValue(h[6 + 2 * i]).value * 16 + HexValue(h[7 + 2 * i]).value == mac[3 + i]
  {
    HexRoundTrip(mac[3 + i]);
    assert HostName(mac)[6 + 2 * i..8 + 2 * i] == HexByte(mac[3 + i]);
  }

  lemma HexRoundTrip(b: byte)
    ensures var h := HexByte(b);
      && HexValue(h[0]) == Some(b / 16) && HexValue(h[1]) == Some(b % 16)
  {
  }
}
