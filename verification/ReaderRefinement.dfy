/** `EthernetUDP` refines the reader the DHCP and DNS clients are proved against: while
    no datagram arrives, every sequence of reads gives the same bytes and leaves the
    same rest. */
module ReaderRefinement {
  import opened Words
  import opened UdpChip
  import opened PacketReader
  import opened EthernetUdp

  /** What the clients do with a datagram. */
  datatype Command = ReadOne | Fill(buffer: Payload) | Drop(n: nat) | DropAll

  /** `read(buffer, sizeof(buffer))`. */
  method FillFrom(u: EthernetUdp, buffer: Payload) returns (filled: seq<byte>)
    requires u.Valid()
    modifies u`remaining, u.socket`time, u.socket`chip
    ensures u.Valid() && old(u.socket.chip.rx.log) <= u.socket.chip.rx.log
    ensures u.socket.chip.rx.log == old(u.socket.chip.rx.log) ==>
      filled == Over(buffer, old(u.Rest())) && u.Rest() == Skip(old(u.Rest()), |buffer|)
  {
    ghost var rest := u.Rest();
    var got, bytes := u.ReadInto(|buffer|);
    assert |bytes| <= |buffer|;
    filled := bytes + buffer[|bytes|..];
    if |bytes| == Min(|buffer|, |rest|) { FilledIsOver(buffer, rest, bytes, u.Rest()); }
  }

  lemma FilledIsOver(buffer: seq<byte>, rest: seq<byte>, bytes: seq<byte>, rest': seq<byte>)
    requires bytes + rest' == rest && |bytes| == Min(|buffer|, |rest|)
    ensures bytes + buffer[|bytes|..] == Over(buffer, rest)
  {
    assert bytes == rest[..|bytes|];
  }

  /** A counted loop of `read()`. */
  method DropFrom(u: EthernetUdp, n: nat)
    requires u.Valid()
    modifies u`remaining, u.socket`time, u.socket`chip
    ensures u.Valid() && old(u.socket.chip.rx.log) <= u.socket.chip.rx.log
    ensures u.socket.chip.rx.log == old(u.socket.chip.rx.log) ==> u.Rest() == Skip(old(u.Rest()), n)
  {
    for i := 0 to n
      invariant u.Valid() && old(u.socket.chip.rx.log) <= u.socket.chip.rx.log
      invariant u.socket.chip.rx.log == old(u.socket.chip.rx.log) ==> u.Rest() == Skip(old(u.Rest()), i)
    {
      var b := u.Read();
      SkipSkip(old(u.Rest()), i, 1);
    }
  }

  /** One command on the actual thing, and what it tells the client. */
  method Obey(u: EthernetUdp, c: Command) returns (seen: seq<int>)
    requires u.Valid()
    modifies u`remaining, u.socket`time, u.socket`chip
    ensures u.Valid() && old(u.socket.chip.rx.log) <= u.socket.chip.rx.log
    ensures u.socket.chip.rx.log == old(u.socket.chip.rx.log) ==> (seen, u.Rest()) == Meant(old(u.Rest()), c)
  {
    seen := [];
    match c
    case ReadOne =>
      var b := u.Read();
      seen := [b];
    case Fill(buffer) =>
      var filled := FillFrom(u, buffer);
      seen := filled;
    case Drop(n) =>
      DropFrom(u, n);
    case DropAll =>
      u.Flush();
  }

  /** The same command on the reader. */
  method Simulate(r: Reader, c: Command) returns (seen: seq<int>)
    modifies r`rest
    ensures (seen, r.rest) == Meant(old(r.rest), c)
  {
    seen := [];
    match c
    case ReadOne =>
      var b := r.Read();
      seen := [b];
    case Fill(buffer) =>
      var filled := r.ReadOver(buffer);
      seen := filled;
    case Drop(n) =>
      r.Discard(n);
    case DropAll =>
      r.Flush();
  }

  function Meant(rest: seq<byte>, c: Command): (seq<int>, seq<byte>) {
    match c
    case ReadOne => ([Next(rest)], Skip(rest, 1))
    case Fill(buffer) => (Over(buffer, rest), Skip(rest, |buffer|))
    case Drop(n) => ([], Skip(rest, n))
    case DropAll => ([], [])
  }

  /** What any commands give, one after the other, and what is left. */
  function MeantAll(rest: seq<byte>, cs: seq<Command>): (seq<seq<int>>, seq<byte>) {
    if cs == [] then ([], rest)
    else
      var (before, left) := MeantAll(rest, cs[..|cs| - 1]);
      var (last, left') := Meant(left, cs[|cs| - 1]);
      (before + [last], left')
  }

  lemma MeantNext(rest: seq<byte>, cs: seq<Command>, i: nat)
    requires i < |cs|
    ensures var (before, left) := MeantAll(rest, cs[..i]);
      var (last, left') := Meant(left, cs[i]);
      MeantAll(rest, cs[..i + 1]) == (before + [last], left')
  {
    assert cs[..i + 1][..i] == cs[..i];
  }

  method RunActual(u: EthernetUdp, cs: seq<Command>) returns (seen: seq<seq<int>>)
    requires u.Valid()
    modifies u`remaining, u.socket`time, u.socket`chip
    ensures u.Valid() && old(u.socket.chip.rx.log) <= u.socket.chip.rx.log
    ensures u.socket.chip.rx.log == old(u.socket.chip.rx.log) ==> (seen, u.Rest()) == MeantAll(old(u.Rest()), cs)
  {
    seen := [];
    for i := 0 to |cs|
      invariant u.Valid() && old(u.socket.chip.rx.log) <= u.socket.chip.rx.log
      invariant u.socket.chip.rx.log == old(u.socket.chip.rx.log) ==>
        (seen, u.Rest()) == MeantAll(old(u.Rest()), cs[..i])
    {
      MeantNext(old(u.Rest()), cs, i);
      var last := Obey(u, cs[i]);
      seen := seen + [last];
    }
    assert cs[..|cs|] == cs;
  }

  method RunSimulated(r: Reader, cs: seq<Command>) returns (seen: seq<seq<int>>)
    modifies r`rest
    ensures (seen, r.rest) == MeantAll(old(r.rest), cs)
  {
    seen := [];
    for i := 0 to |cs|
      invariant (seen, r.rest) == MeantAll(old(r.rest), cs[..i])
    {
      MeantNext(old(r.rest), cs, i);
      var last := Simulate(r, cs[i]);
      seen := seen + [last];
    }
    assert cs[..|cs|] == cs;
  }

  /** Any commands, on both: as long as no datagram arrives both give what the commands
      mean, and nobody can tell them apart. */
  method RunBoth(u: EthernetUdp, r: Reader, cs: seq<Command>) returns (actual: seq<seq<int>>, simulated: seq<seq<int>>)
    requires u.Valid() && u.Rest() == r.rest
    modifies u`remaining, u.socket`time, u.socket`chip, r`rest
    ensures u.Valid() && (simulated, r.rest) == MeantAll(old(r.rest), cs)
    ensures u.socket.chip.rx.log == old(u.socket.chip.rx.log) ==> (actual, u.Rest()) == (simulated, r.rest)
  {
    actual := RunActual(u, cs);
    simulated := RunSimulated(r, cs);
  }
}
