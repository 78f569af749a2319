/** The datagram layer above the socket driver, on which the DHCP and DNS clients and
    the sketch rest. */
module EthernetUdp {
  import opened Words
  import opened UdpChip
  import opened UdpSend
  import opened SizeRegister
  import opened SocketDriver
  import opened PacketWrites
  import opened PacketReader

  class EthernetUdp {
    const socket: Socket
    var offset: u16
    var remaining: u16
    var remoteIp: Ip
    var remotePort: u16
    /** How many accepted datagrams have had their header parsed. */
    ghost var parsed: nat
    /** The transmit side at `beginPacket`, and the chunks stored since. */
    ghost var base: Tx
    ghost var chunks: seq<Payload>

    /** The unread part of the current datagram. */
    ghost function Rest(): seq<byte>
      reads this, socket
      requires remaining > 0 ==>
        0 < parsed <= |socket.chip.rx.log| && remaining <= |socket.chip.rx.log[parsed - 1].payload|
    {
      if remaining == 0 then []
      else
        var p := socket.chip.rx.log[parsed - 1].payload;
        p[|p| - remaining..]
    }

    /** The framing invariant: what the ring holds is the rest of the current
        datagram followed by the datagrams not yet parsed. */
    ghost predicate Valid()
      reads this, socket
    {
      var log := socket.chip.rx.log;
      && parsed <= |log|
      && (remaining > 0 ==> parsed > 0 && remaining <= |log[parsed - 1].payload|)
      && (parsed > 0 ==> remoteIp == log[parsed - 1].ip && remotePort == log[parsed - 1].port)
      && socket.chip.rx.rdWritten == socket.chip.rx.rd
      && socket.chip.rx.Backlog() == Rest() + Frames(log[parsed..])
    }

    constructor (script: Script, chip: Chip)
      requires chip.rx.rdWritten == chip.rx.rd && chip.rx.rsr == 0
      ensures Valid() && fresh(socket) && parsed == |chip.rx.log|
      ensures socket.chip == chip && socket.script == script
    {
      socket := new Socket(script, chip);
      offset, remaining, remoteIp, remotePort := 0, 0, [0, 0, 0, 0], 0;
      parsed, base, chunks := |chip.rx.log|, chip.tx, [];
      if |chip.rx.log| > 0 {
        remoteIp, remotePort := chip.rx.log[|chip.rx.log| - 1].ip, chip.rx.log[|chip.rx.log| - 1].port;
      }
    }

    /** What a consumption of part of the current datagram does to the framing. */
    twostate lemma StillFramed(data: seq<byte>)
      requires old(Valid())
      requires Took(old(socket.chip.rx), socket.chip.rx, data)
      requires |data| <= old(remaining) && remaining == old(remaining) - |data|
      requires unchanged(`remoteIp) && unchanged(`remotePort) && unchanged(`parsed)
      ensures Valid() && data + Rest() == old(Rest())
    {
      var log, log' := old(socket.chip.rx.log), socket.chip.rx.log;
      var rest := old(Rest());
      SplitStream(data, socket.chip.rx.Backlog(), rest, log, log', parsed);
      assert Rest() == rest[|data|..];
    }

    /** `read()`: the next byte of the current datagram, or -1.  It fails on a datagram
        that is not used up only if another one arrived meanwhile. */
    method Read() returns (b: int)
      requires Valid()
      modifies this`remaining, socket`time, socket`chip
      ensures Valid() && old(socket.chip.rx.log) <= socket.chip.rx.log
      ensures socket.chip.tx == old(socket.chip.tx).(free := socket.chip.tx.free)
      ensures b >= 0 ==> old(Rest()) != [] && b == old(Rest())[0] && Rest() == old(Rest())[1..]
      ensures b < 0 ==> b == -1 && Rest() == old(Rest())
      ensures b < 0 && Rest() != [] ==>
        old(socket.chip.rx.rsr) < 0x100 && |socket.chip.rx.log| > |old(socket.chip.rx.log)|
      ensures socket.chip.rx.log == old(socket.chip.rx.log) ==> b == Next(old(Rest())) && Rest() == Skip(old(Rest()), 1)
    {
      if remaining > 0 {
        var ret, data, at := socket.Recv(1);
        if ret > 0 {
          remaining := remaining - 1;
          StillFramed(data);
          return data[0];
        }
        StillFramed(data);
      }
      return -1;
    }

    /** `read(buffer, len)`: the next bytes of the current datagram, as many as fit. */
    method ReadInto(len: u16) returns (got: int, buffer: seq<byte>)
      requires Valid()
      modifies this`remaining, socket`time, socket`chip
      ensures Valid() && old(socket.chip.rx.log) <= socket.chip.rx.log
      ensures socket.chip.tx == old(socket.chip.tx).(free := socket.chip.tx.free)
      ensures buffer + Rest() == old(Rest())
      ensures if got > 0 then got == |buffer| == Min(len, |old(Rest())|) else got == -1 && buffer == []
      ensures got < 0 && len > 0 && Rest() != [] ==>
        old(socket.chip.rx.rsr) < 0x100 && |socket.chip.rx.log| > |old(socket.chip.rx.log)|
      ensures socket.chip.rx.log == old(socket.chip.rx.log) ==> Rest() == Skip(old(Rest()), len)
    {
      if remaining > 0 {
        got, buffer := Take(if remaining <= len then remaining else len);
        if got > 0 { return; }
      }
      got, buffer := -1, [];
    }

    /** At most `n` bytes of the current datagram. */
    method Take(n: u16) returns (got: int, buffer: seq<byte>)
      requires Valid() && n <= remaining
      modifies this`remaining, socket`time, socket`chip
      ensures Valid() && old(socket.chip.rx.log) <= socket.chip.rx.log
      ensures socket.chip.tx == old(socket.chip.tx).(free := socket.chip.tx.free)
      ensures buffer + Rest() == old(Rest()) && |buffer| == Max(got, 0)
      ensures got > 0 ==> got == n
      ensures got <= 0 < n ==> old(socket.chip.rx.rsr) < 0x100 && |socket.chip.rx.log| > |old(socket.chip.rx.log)|
    {
      ghost var at;
      got, buffer, at := socket.Recv(n);
      assert at.rx.rsr >= old(socket.chip).rx.rsr >= remaining;
      if got > 0 {
        remaining := remaining - got;
      }
      StillFramed(buffer);
    }

    /** `peek()`: the next byte of the current datagram, which stays unread. */
    method Peek() returns (b: int)
      requires Valid()
      modifies socket`time, socket`chip
      ensures Valid() && Rest() == old(Rest()) && old(socket.chip.rx.log) <= socket.chip.rx.log
      ensures b == if Rest() == [] then -1 else Rest()[0]
    {
      if remaining == 0 {
        return -1;
      }
      b := socket.Peek();
      StillFramed([]);
      assert b == socket.chip.rx.Backlog()[0];
    }

    /** `flush()`: ends, because a failed read needs an arrival and the ring is finite. */
    method Flush()
      requires Valid()
      modifies this`remaining, socket`time, socket`chip
      ensures Valid() && remaining == 0 && old(socket.chip.rx.log) <= socket.chip.rx.log
      ensures socket.chip.tx == old(socket.chip.tx).(free := socket.chip.tx.free)
    {
      while remaining > 0
        invariant Valid() && old(socket.chip.rx.log) <= socket.chip.rx.log
        invariant socket.chip.tx == old(socket.chip.tx).(free := socket.chip.tx.free)
        decreases remaining, 2048 - socket.chip.rx.rsr
      {
        ghost var log := socket.chip.rx.log;
        var b := Read();
        LaterFrames(log, socket.chip.rx.log, parsed);
      }
    }

    /** `parsePacket()`: drops the rest of the current datagram and reports the next
        one in full, however little of the previous one was read; it passes over a
        queued datagram only if another one arrived meanwhile, and only while fewer than
        256 bytes are waiting. */
    method ParsePacket() returns (ret: int)
      requires Valid()
      modifies this`remaining, this`remoteIp, this`remotePort, this`parsed, socket`time, socket`chip
      ensures Valid() && old(socket.chip.rx.log) <= socket.chip.rx.log
      ensures socket.chip.tx == old(socket.chip.tx).(free := socket.chip.tx.free)
      ensures parsed == old(parsed) || parsed == old(parsed) + 1
      ensures parsed == old(parsed) + 1 ==>
        var d := socket.chip.rx.log[old(parsed)];
        && remoteIp == d.ip && remotePort == d.port
        && Rest() == d.payload && ret == |d.payload|
      ensures parsed == old(parsed) ==> ret <= 0 && Rest() == []
      ensures parsed == old(parsed) < |old(socket.chip.rx.log)| ==>
        |socket.chip.rx.log| > |old(socket.chip.rx.log)| && |Frames(old(socket.chip.rx.log)[parsed..])| < 0x100
    {
      Flush();
      LaterFrames(old(socket.chip.rx.log), socket.chip.rx.log, parsed);
      ret := NextPacket();
    }

    /** `parsePacket()` once nothing is left of the last datagram. */
    method NextPacket() returns (ret: int)
      requires Valid() && remaining == 0
      modifies this`remaining, this`remoteIp, this`remotePort, this`parsed, socket`time, socket`chip
      ensures Valid() && old(socket.chip.rx.log) <= socket.chip.rx.log
      ensures socket.chip.tx == old(socket.chip.tx).(free := socket.chip.tx.free)
      ensures parsed == old(parsed) || parsed == old(parsed) + 1
      ensures parsed == old(parsed) + 1 ==>
        var d := socket.chip.rx.log[old(parsed)];
        && remoteIp == d.ip && remotePort == d.port
        && Rest() == d.payload && ret == |d.payload|
      ensures parsed == old(parsed) ==> ret <= 0 && Rest() == []
      ensures parsed == old(parsed) && old(socket.chip.rx.rsr) > 0 ==>
        |socket.chip.rx.log| > |old(socket.chip.rx.log)| && old(socket.chip.rx.rsr) < 0x100
    {
      var size, at := socket.GetRXReceivedSize();
      StillFramed([]);
      if size > 0 {
        ret := ReadHeader();
      } else {
        ret := 0;
      }
    }

    /** The inner step of `parsePacket()`: read the 8-byte header of the next datagram. */
    method ReadHeader() returns (ret: int)
      requires Valid() && remaining == 0
      modifies this`remaining, this`remoteIp, this`remotePort, this`parsed, socket`time, socket`chip
      ensures Valid() && old(socket.chip.rx.log) <= socket.chip.rx.log
      ensures socket.chip.tx == old(socket.chip.tx).(free := socket.chip.tx.free)
      ensures parsed == old(parsed) || parsed == old(parsed) + 1
      ensures parsed == old(parsed) + 1 ==>
        var d := socket.chip.rx.log[old(parsed)];
        && remoteIp == d.ip && remotePort == d.port
        && Rest() == d.payload && ret == |d.payload|
      ensures parsed == old(parsed) ==> ret <= 0 && Rest() == []
      ensures parsed == old(parsed) && old(socket.chip.rx.rsr) > 0 ==>
        |socket.chip.rx.log| > |old(socket.chip.rx.log)| && old(socket.chip.rx.rsr) < 0x100
    {
      var tmpBuf;
      ret, tmpBuf := TakeHeader();
      if ret > 0 {
        remoteIp := tmpBuf[..4];
        remotePort := Join(tmpBuf[4], tmpBuf[5]);
        remaining := Join(tmpBuf[6], tmpBuf[7]);
        parsed := parsed + 1;
        ret := Signed16(remaining);
      } else {
        StillFramed([]);
      }
    }

    method TakeHeader() returns (ret: int, tmpBuf: seq<byte>)
      requires Valid() && remaining == 0
      modifies socket`time, socket`chip
      ensures old(socket.chip.rx.log) <= socket.chip.rx.log && socket.chip.rx.rdWritten == socket.chip.rx.rd
      ensures socket.chip.tx == old(socket.chip.tx).(free := socket.chip.tx.free)
      ensures ret > 0 ==> parsed < |socket.chip.rx.log| && HeaderIs(tmpBuf, socket.chip.rx.log[parsed])
      ensures ret > 0 ==>
        var log := socket.chip.rx.log;
        socket.chip.rx.Backlog() == log[parsed].payload + Frames(log[parsed + 1..])
      ensures ret <= 0 ==> tmpBuf == [] && Took(old(socket.chip.rx), socket.chip.rx, [])
      ensures ret <= 0 && old(socket.chip.rx.rsr) > 0 ==>
        |socket.chip.rx.log| > |old(socket.chip.rx.log)| && old(socket.chip.rx.rsr) < 0x100
    {
      ghost var at;
      ret, tmpBuf, at := socket.Recv(8);
      if ret > 0 { HeaderTaken(old(socket.chip), at, socket.chip, parsed, tmpBuf); }
    }

    /** The transmit side is the one found by `beginPacket` plus the chunks since. */
    ghost predicate Building()
      reads this, socket
    {
      BuiltFrom(base, chunks, offset, socket.chip.tx)
    }

    method BeginPacket(ip: Ip, port: u16) returns (ok: bool)
      requires Valid()
      modifies this`offset, this`base, this`chunks, socket`chip
      ensures Valid() && Rest() == old(Rest())
      ensures Building() && chunks == [] && base == socket.chip.tx
      ensures ok <==> ip != [0, 0, 0, 0] && port != 0
      ensures socket.chip.tx == if ok then old(socket.chip.tx).(ip := ip, port := port) else old(socket.chip.tx)
      ensures socket.chip.rx == old(socket.chip.rx)
    {
      offset := 0;
      ok := socket.StartUdp(ip, port);
      base, chunks := socket.chip.tx, [];
      NothingBuilt(base);
      SameTakesNothing(socket.chip.rx);
      StillFramed([]);
    }

    method Write(buffer: Payload, beyond: nat -> byte) returns (written: u16, ghost data: Payload)
      requires Valid()
      modifies this`offset, this`chunks, socket`time, socket`chip
      ensures Valid() && Rest() == old(Rest())
      ensures written <= socket.chip.tx.free && old(socket.chip.tx.free) <= socket.chip.tx.free
      ensures Wrote(old(socket.chip), socket.script, old(socket.time), old(offset), buffer, beyond,
                    Written(socket.chip, socket.time, offset))
      ensures data == Fetched(buffer, beyond, written) && chunks == old(chunks) + [data]
      ensures Safe(|buffer|, old(socket.chip.tx.free)) ==> written == |buffer|
      ensures socket.chip.tx.free == old(socket.chip.tx.free) ==> written == Min(|buffer|, socket.chip.tx.free)
      ensures old(Building()) ==> Building()
    {
      written, data := Buffer(buffer, beyond);
      StillFramed([]);
    }

    /** The same, for the transmit side. */
    method Buffer(buffer: Payload, beyond: nat -> byte) returns (written: u16, ghost data: Payload)
      requires socket.chip.rx.rdWritten == socket.chip.rx.rd
      modifies this`offset, this`chunks, socket`time, socket`chip
      ensures Took(old(socket.chip.rx), socket.chip.rx, [])
      ensures written <= socket.chip.tx.free && old(socket.chip.tx.free) <= socket.chip.tx.free
      ensures Wrote(old(socket.chip), socket.script, old(socket.time), old(offset), buffer, beyond,
                    Written(socket.chip, socket.time, offset))
      ensures data == Fetched(buffer, beyond, written) && chunks == old(chunks) + [data]
      ensures Safe(|buffer|, old(socket.chip.tx.free)) ==> written == |buffer|
      ensures socket.chip.tx.free == old(socket.chip.tx.free) ==> written == Min(|buffer|, socket.chip.tx.free)
      ensures BuiltFrom(base, old(chunks), old(offset), old(socket.chip.tx)) ==>
        BuiltFrom(base, chunks, offset, socket.chip.tx)
    {
      ghost var tx := socket.chip.tx;
      written, data := Advance(buffer, beyond);
      chunks := chunks + [data];
      if BuiltFrom(base, old(chunks), old(offset), tx) {
        BuildingStep(base, old(chunks), old(offset), tx, data, chunks, offset, socket.chip.tx);
      }
    }

    /** The two statements of `write`. */
    method Advance(buffer: Payload, beyond: nat -> byte) returns (written: u16, ghost data: Payload)
      requires socket.chip.rx.rdWritten == socket.chip.rx.rd
      modifies this`offset, socket`time, socket`chip
      ensures Took(old(socket.chip.rx), socket.chip.rx, [])
      ensures written <= socket.chip.tx.free && old(socket.chip.tx.free) <= socket.chip.tx.free
      ensures Wrote(old(socket.chip), socket.script, old(socket.time), old(offset), buffer, beyond,
                    Written(socket.chip, socket.time, offset))
      ensures data == Fetched(buffer, beyond, written) && offset == Wrap16(old(offset) + |data|)
      ensures socket.chip.tx == old(socket.chip.tx).Put(old(offset), data).(free := socket.chip.tx.free)
      ensures Safe(|buffer|, old(socket.chip.tx.free)) ==> written == |buffer|
      ensures socket.chip.tx.free == old(socket.chip.tx.free) ==> written == Min(|buffer|, socket.chip.tx.free)
    {
      ghost var rx := socket.chip.rx;
      written, data := socket.BufferData(offset, buffer, beyond);
      EvolvingTakesNothing(rx, socket.chip.rx);
      offset := Wrap16(offset + written);
    }

    /** `endPacket()`: everything written since `beginPacket` leaves as one datagram
        if it fits the ring and there was at least one write. */
    method EndPacket(sendOk: nat -> bool, timeout: nat -> bool, ghost limit: nat) returns (ret: int)
      requires Valid()
      requires forall i: nat :: i >= limit ==> sendOk(i) || timeout(i)
      requires forall i: nat, j: nat :: i <= j && timeout(i) ==> timeout(j)
      modifies socket`time, socket`chip
      ensures Valid() && Rest() == old(Rest())
      ensures socket.chip.tx == old(socket.chip.tx).Send().(free := socket.chip.tx.free)
      ensures old(Building()) && chunks != [] && |Concat(chunks)| <= 2048 ==>
        socket.chip.tx.sent ==
          old(socket.chip.tx.sent) + [Datagram(old(socket.chip.tx.ip), old(socket.chip.tx.port), Concat(chunks))]
      ensures ret == 1 <==> exists n :: Acknowledged(sendOk, timeout, n)
      ensures ret == 1 || ret == 0
    {
      ret := socket.SendUdp(sendOk, timeout, limit);
      StillFramed([]);
      if old(Building()) && chunks != [] && |Concat(chunks)| <= 2048 {
        SentAsWrittenIff(base, chunks);
        SendIgnoresFree(PutAll(base, 0, chunks), old(socket.chip.tx.free));
        PutAllKeepsDestination(base, 0, chunks);
      }
    }

    /** A whole packet, from `beginPacket` over any number of writes to `endPacket`: it
        leaves as `WrittenBy` says.  If it fits the free space, and is empty or at least
        256 bytes are free, that is the concatenation of what was given to the writes,
        whatever the chip does meanwhile; and only then is it so for every script, as
        `PacketIsSentIff` says. */
    method SendPacket(ip: Ip, port: u16, buffers: seq<Payload>, beyond: nat -> byte,
                      sendOk: nat -> bool, timeout: nat -> bool, ghost limit: nat)
      returns (ret: int)
      requires Valid() && ip != [0, 0, 0, 0] && port != 0
      requires forall i: nat :: i >= limit ==> sendOk(i) || timeout(i)
      requires forall i: nat, j: nat :: i <= j && timeout(i) ==> timeout(j)
      modifies this`offset, this`base, this`chunks, socket`time, socket`chip
      ensures Valid() && Rest() == old(Rest())
      ensures var c := old(socket.chip.(tx := socket.chip.tx.(ip := ip, port := port)));
        socket.chip.tx.sent ==
          WrittenBy(c, Driver(socket.script, beyond), old(socket.time), 0, buffers).Send().sent
      ensures Certain(buffers, old(socket.chip.tx.free)) ==>
        socket.chip.tx.sent == old(socket.chip.tx.sent) + [Datagram(ip, port, Concat(buffers))]
      ensures ret == 1 <==> exists n :: Acknowledged(sendOk, timeout, n)
    {
      ghost var write := Driver(socket.script, beyond);
      DriverStores(socket.script, beyond);
      ret := SendWith(ip, port, buffers, beyond, write, sendOk, timeout, limit);
    }

    method SendWith(ip: Ip, port: u16, buffers: seq<Payload>, beyond: nat -> byte, ghost write: Writer,
                    sendOk: nat -> bool, timeout: nat -> bool, ghost limit: nat)
      returns (ret: int)
      requires Valid() && ip != [0, 0, 0, 0] && port != 0
      requires IsDriver(write, socket.script, beyond) && Stores(write)
      requires forall i: nat :: i >= limit ==> sendOk(i) || timeout(i)
      requires forall i: nat, j: nat :: i <= j && timeout(i) ==> timeout(j)
      modifies this`offset, this`base, this`chunks, socket`time, socket`chip
      ensures Valid() && Rest() == old(Rest())
      ensures var c := old(socket.chip.(tx := socket.chip.tx.(ip := ip, port := port)));
        socket.chip.tx.sent == WrittenBy(c, write, old(socket.time), 0, buffers).Send().sent
      ensures Certain(buffers, old(socket.chip.tx.free)) ==>
        socket.chip.tx.sent == old(socket.chip.tx.sent) + [Datagram(ip, port, Concat(buffers))]
      ensures ret == 1 <==> exists n :: Acknowledged(sendOk, timeout, n)
    {
      var ok := BeginPacket(ip, port);
      ghost var c := socket.chip;
      WriteAll(buffers, beyond, write);
      ret := EndPacket(sendOk, timeout, limit);
      if Certain(buffers, c.tx.free) { LeavesIfCertain(c, write, old(socket.time), buffers); }
    }

    method WriteAll(buffers: seq<Payload>, beyond: nat -> byte, ghost write: Writer)
      requires Valid() && IsDriver(write, socket.script, beyond)
      modifies this`offset, this`chunks, socket`time, socket`chip
      ensures Valid() && Rest() == old(Rest())
      ensures socket.chip.tx == WrittenBy(old(socket.chip), write, old(socket.time), old(offset), buffers)
    {
      for i := 0 to |buffers|
        invariant Valid() && Rest() == old(Rest())
        invariant WrittenBy(socket.chip, write, socket.time, offset, buffers[i..]) ==
          WrittenBy(old(socket.chip), write, old(socket.time), old(offset), buffers)
      {
        ghost var c, t, o := socket.chip, socket.time, offset;
        ghost var data;
        var written;
        written, data := Write(buffers[i], beyond);
        assert buffers[i..][1..] == buffers[i + 1..];
        WroteFirst(c, socket.script, write, t, o, buffers[i..], beyond, Written(socket.chip, socket.time, offset));
      }
    }
  }

  predicate HeaderIs(header: seq<byte>, d: Datagram) {
    && |header| == 8 && header[..4] == d.ip && Join(header[4], header[5]) == d.port
    && Join(header[6], header[7]) == |d.payload|
  }

  /** A positive `recv` of 8 bytes between datagrams returns one whole header. */
  lemma HeaderTaken(c0: Chip, at: Chip, c1: Chip, parsed: nat, header: seq<byte>)
    requires parsed <= |c0.rx.log| && c0.rx.Backlog() == Frames(c0.rx.log[parsed..])
    requires Evolves(c0, at) && at.rx.log <= c1.rx.log
    requires Consumes(c0, c1, header) && |header| == Min(8, at.rx.rsr) > 0
    ensures parsed < |c1.rx.log| && |header| == 8
    ensures var d := c1.rx.log[parsed];
      HeaderIs(header, d) && c1.rx.Backlog() == d.payload + Frames(c1.rx.log[parsed + 1..])
  {
    SplitStream([], at.rx.Backlog(), [], c0.rx.log, at.rx.log, parsed);
    assert parsed < |at.rx.log|;
    SplitStream([], header + c1.rx.Backlog(), [], c0.rx.log, c1.rx.log, parsed);
    var d := c1.rx.log[parsed];
    assert c1.rx.log[parsed..][1..] == c1.rx.log[parsed + 1..];
    Cancel(header, c1.rx.Backlog(), d.Frame(), Frames(c1.rx.log[parsed + 1..]));
    assert d.Frame()[8..] == d.payload;
    assert header == d.Frame()[..8];
  }

  /** Taking `data` off a stream that starts with `rest` leaves the tail of `rest`
      and all whole frames, old and new. */
  lemma SplitStream(data: seq<byte>, backlog: seq<byte>, rest: seq<byte>,
                    log: seq<Datagram>, log': seq<Datagram>, parsed: nat)
    requires log <= log' && parsed <= |log| && |data| <= |rest|
    requires data + backlog == rest + Frames(log[parsed..]) + Frames(log'[|log|..])
    ensures data == rest[..|data|]
    ensures backlog == rest[|data|..] + Frames(log'[parsed..])
  {
    LaterFrames(log, log', parsed);
    Regroup(rest, Frames(log[parsed..]), Frames(log'[|log|..]));
    Cancel(data, backlog, rest, Frames(log'[parsed..]));
  }

  lemma LaterFrames(log: seq<Datagram>, log': seq<Datagram>, parsed: nat)
    requires log <= log' && parsed <= |log|
    ensures Frames(log[parsed..]) + Frames(log'[|log|..]) == Frames(log'[parsed..])
    ensures |log'| > |log| ==> |Frames(log'[parsed..])| > |Frames(log[parsed..])|
  {
    assert log'[parsed..] == log[parsed..] + log'[|log|..];
    FramesConcat(log[parsed..], log'[|log|..]);
  }

  lemma Cancel(a: seq<byte>, b: seq<byte>, c: seq<byte>, d: seq<byte>)
    requires a + b == c + d && |a| <= |c|
    ensures a == c[..|a|] && b == c[|a|..] + d
  {
    assert a == (a + b)[..|a|] && b == (a + b)[|a|..];
  }
}
