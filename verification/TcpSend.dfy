/** Writing to a TCP connection: `send` of the socket layer, and what
    `EthernetClient::write` reports about it. */
module TcpSend {
  import opened Words
  import opened UdpChip
  import opened UdpSend
  import opened SizeRegister
  import opened SocketDriver
  import Ring

  /** Sn_SR and Sn_IR as they would read at each register access: the connection
      stands (ESTABLISHED or CLOSE_WAIT), is CLOSED, has SEND_OK. */
  datatype Signals = Signals(standing: nat -> bool, closed: nat -> bool, sendOk: nat -> bool)

  /** What `send` hands to the chip: at most 2048 bytes, nothing unless the
      connection stands. */
  function Accepted(data: Payload, stands: bool): (d: Payload)
    ensures d <= data && |d| <= 2048
  {
    if !stands then [] else if |data| > 2048 then data[..2048] else data
  }

  /** From access `limit` on the transmit ring is empty, or the connection is gone. */
  ghost predicate Empty(c: Chip, script: Script, t: nat, k: nat) {
    After(c, script, t, k).tx.free == 2048
  }

  ghost predicate Settles(c: Chip, script: Script, t: nat, signals: Signals, limit: nat) {
    || (forall k: nat :: t + k >= limit ==> Empty(c, script, t, k))
    || (forall i: nat :: i >= limit ==> !signals.standing(i))
  }

  /** From access `limit` on SEND_OK is set, or the socket is CLOSED at the next one. */
  ghost predicate Ends(signals: Signals, limit: nat) {
    forall i: nat :: i >= limit ==> Over(signals, i)
  }

  predicate Over(signals: Signals, i: nat) { signals.sendOk(i) || signals.closed(i + 1) }

  /** At one of the accesses from `from` on and before `to` the register read so. */
  ghost predicate Seen(signal: nat -> bool, from: nat, to: nat, value: bool) {
    exists t :: from <= t < to && signal(t) == value
  }

  lemma {:induction false} AfterAfter(c: Chip, script: Script, t: nat, j: nat, k: nat)
    ensures After(After(c, script, t, j), script, t + j, k) == After(c, script, t, j + k)
    decreases k
  {
    if k > 0 { AfterAfter(c, script, t, j, k - 1); }
  }

  lemma SettlesLater(c: Chip, script: Script, t: nat, signals: Signals, limit: nat, j: nat)
    requires Settles(c, script, t, signals, limit)
    ensures Settles(After(c, script, t, j), script, t + j, signals, limit)
  {
    if forall k: nat :: t + k >= limit ==> Empty(c, script, t, k) {
      var c', t' := After(c, script, t, j), t + j;
      forall k: nat | t' + k >= limit ensures Empty(c', script, t', k) {
        AfterAfter(c, script, t, j, k);
        assert Empty(c, script, t, j + k);
      }
    }
  }

  /** An empty ring reads as empty. */
  lemma SettledReads(c: Chip, script: Script, t: nat)
    requires forall k: nat :: Empty(c, script, t, k)
    ensures Rising(FreeSize(c, script, t), 0)
    ensures Stable(FreeSize(c, script, t), 0, ZERO).value.Value() == 2048
  {
    var reg := FreeSize(c, script, t);
    SizesRise(c, script, t);
    forall i: nat ensures At(reg, i) == At(reg, 0) {
      assert Empty(c, script, t, i) && Empty(c, script, t, 0);
    }
    SteadyResult(reg, 0);
    FreeAt(c, script, t, 0);
  }

  /** `getTXFreeSize` between other accesses: never more than is free. */
  method GetTXFreeSize(s: Socket, ghost settled: bool) returns (size: u16)
    requires settled ==> forall k: nat :: Empty(s.chip, s.script, s.time, k)
    modifies s`time, s`chip
    ensures Evolves(old(s.chip), s.chip) && size <= s.chip.tx.free
    ensures s.time > old(s.time) && s.chip == After(old(s.chip), s.script, old(s.time), s.time - old(s.time))
    ensures settled ==> size == 2048
  {
    ghost var c, t := s.chip, s.time;
    var reg := FreeSize(s.chip, s.script, s.time);
    SizesRise(c, s.script, t);
    if settled { SettledReads(c, s.script, t); }
    var val, k := ReadStable(reg, 0);
    FreeAt(c, s.script, t, k);
    ValueOrder(val, At(reg, k));
    size := val.Value();
    s.Elapse(k);
  }

  /** The loop that waits for room: it ends with room for `want` bytes or without a
      connection. */
  method AwaitRoom(s: Socket, signals: Signals, want: u16, ghost limit: nat) returns (stands: bool)
    requires want <= 2048 && Settles(s.chip, s.script, s.time, signals, limit)
    modifies s`time, s`chip
    ensures Evolves(old(s.chip), s.chip) && old(s.time) <= s.time
    ensures stands ==> want <= s.chip.tx.free
    ensures Seen(signals.standing, old(s.time), s.time, stands)
  {
    AfterEvolves(s.chip, s.script, s.time, 0, 0);
    while true
      invariant Evolves(old(s.chip), s.chip) && old(s.time) <= s.time
      invariant Settles(s.chip, s.script, s.time, signals, limit)
      decreases limit - s.time
    {
      ghost var before, t := s.chip, s.time;
      ghost var settled := t >= limit && forall k: nat :: t + k >= limit ==> Empty(s.chip, s.script, t, k);
      var free := GetTXFreeSize(s, settled);
      EvolvesTransitive(old(s.chip), before, s.chip);
      SettlesLater(before, s.script, t, signals, limit, s.time - t);
      ghost var read := s.chip;
      stands := signals.standing(s.time);
      SettlesLater(read, s.script, s.time, signals, limit, 1);
      s.Elapse(1);
      EvolvesTransitive(old(s.chip), read, s.chip);
      if !stands || free >= want { return; }
    }
  }

  /** The loop that waits for SEND_OK. */
  method AwaitSendOk(s: Socket, signals: Signals, ghost limit: nat) returns (ok: bool)
    requires Ends(signals, limit)
    modifies s`time, s`chip
    ensures Evolves(old(s.chip), s.chip) && old(s.time) <= s.time
    ensures Seen(if ok then signals.sendOk else signals.closed, old(s.time), s.time, true)
  {
    AfterEvolves(s.chip, s.script, s.time, 0, 0);
    while !signals.sendOk(s.time)
      invariant Evolves(old(s.chip), s.chip) && old(s.time) <= s.time
      decreases limit - s.time
    {
      assert s.time >= limit ==> Over(signals, s.time);
      ghost var before := s.chip;
      s.Elapse(1);
      var closed := signals.closed(s.time);
      ghost var read := s.chip;
      s.Elapse(1);
      EvolvesTransitive(old(s.chip), before, read);
      EvolvesTransitive(old(s.chip), read, s.chip);
      if closed { return false; }
    }
    ghost var before := s.chip;
    s.Elapse(1);
    EvolvesTransitive(old(s.chip), before, s.chip);
    ok := true;
  }

  /** `send`: waits for room, so that what it stores fits behind the bytes still in
      flight (`tx` is the transmit side it stores to); the number it returns is what
      it handed over, or 0 if the connection ended before SEND_OK. */
  method Send(s: Socket, buf: Payload, signals: Signals, ghost limit: nat, ghost ackLimit: nat)
    returns (ret: u16, ghost tx: Tx, ghost handed: Payload, ghost stands: bool, ghost ok: bool)
    requires Settles(s.chip, s.script, s.time, signals, limit) && Ends(signals, ackLimit)
    modifies s`time, s`chip
    ensures tx == old(s.chip.tx).(free := tx.free) && old(s.chip.tx.free) <= tx.free
    ensures handed == Accepted(buf, stands) && |handed| <= tx.free
    ensures handed <= buf && |handed| == if stands then Min(|buf|, 2048) else 0
    ensures s.chip.tx == Stored(tx, handed).Send().(free := s.chip.tx.free)
    ensures Stored(tx, handed).Send().free <= s.chip.tx.free
    ensures ret == if ok then |handed| else 0
    ensures Seen(signals.standing, old(s.time), s.time, stands)
    ensures Seen(if ok then signals.sendOk else signals.closed, old(s.time), s.time, true)
  {
    ret := if |buf| > 2048 then 2048 else |buf|;
    var standing := AwaitRoom(s, signals, ret, limit);
    stands := standing;
    if !standing { ret := 0; }
    tx, handed := s.chip.tx, Accepted(buf, stands);
    assert buf[..ret] == handed;
    FirstPut(tx, handed);
    s.chip := s.chip.(tx := s.chip.tx.Put(0, buf[..ret]).Send());
    var acknowledged := AwaitSendOk(s, signals, ackLimit);
    ok := acknowledged;
    if !acknowledged { ret := 0; }
  }

  /** `EthernetClient::write` on an open client: the size asked for, unless `send`
      returned nothing. */
  method ClientWrite(s: Socket, buf: Payload, signals: Signals, ghost limit: nat, ghost ackLimit: nat)
    returns (size: nat, ghost tx: Tx, ghost w: Attempt)
    requires Settles(s.chip, s.script, s.time, signals, limit) && Ends(signals, ackLimit)
    modifies s`time, s`chip
    ensures w.data == buf && size == Reported(w)
    ensures tx == old(s.chip.tx).(free := tx.free) && |Handed(w)| <= tx.free
    ensures s.chip.tx == Stored(tx, Handed(w)).Send().(free := s.chip.tx.free)
    ensures Seen(signals.standing, old(s.time), s.time, w.stands)
    ensures Seen(if w.lost then signals.closed else signals.sendOk, old(s.time), s.time, true)
  {
    ghost var handed, stands, ok;
    var sent;
    sent, tx, handed, stands, ok := Send(s, buf, signals, limit, ackLimit);
    w := Attempt(buf, stands, !ok);
    if sent == 0 {
      return 0, tx, w;
    }
    size := |buf|;
  }

  // ----- What is reported -----

  /** One write: did the connection stand, and did it end before SEND_OK. */
  datatype Attempt = Attempt(data: Payload, stands: bool, lost: bool)

  function Handed(w: Attempt): Payload { Accepted(w.data, w.stands) }

  function Reported(w: Attempt): nat {
    if w.lost || Handed(w) == [] then 0 else |w.data|
  }

  /** The report tells what was handed over exactly when nothing was, or the write was
      acknowledged and no longer than 2048 bytes. */
  lemma ReportIsTrueIff(w: Attempt)
    ensures Reported(w) == |Handed(w)| <==>
      w.data == [] || !w.stands || (!w.lost && |w.data| <= 2048)
  {
  }

  // ----- Conservation -----

  /** The transmit side and what has left it for good. */
  datatype Line = Line(tx: Tx, gone: seq<byte>)

  datatype Step = Write(data: Payload) | Drained(n: nat)

  predicate Possible(l: Line, s: Step) {
    s.Write? ==> |s.data| <= l.tx.free
  }

  function Next(l: Line, s: Step): Line {
    match s
    case Write(data) => l.(tx := Stored(l.tx, data).Send())
    case Drained(n) => Line(l.tx.Drain(n), l.gone + l.tx.InFlight()[..Min(n, 2048 - l.tx.free)])
  }

  ghost predicate PossibleRun(l: Line, ss: seq<Step>)
    decreases |ss|
  {
    ss == [] || (Possible(l, ss[0]) && PossibleRun(Next(l, ss[0]), ss[1..]))
  }

  function Run(l: Line, ss: seq<Step>): Line
    decreases |ss|
  {
    if ss == [] then l else Run(Next(l, ss[0]), ss[1..])
  }

  function Written(ss: seq<Step>): seq<byte> {
    if ss == [] then [] else (if ss[0].Write? then ss[0].data else []) + Written(ss[1..])
  }

  /** Over every run of writes that wait for room and of transmissions, and through
      every wrap, what has left the chip followed by what is in flight is what was
      written, in order: nothing is lost, repeated or overwritten. */
  lemma {:induction false} Conservation(l: Line, ss: seq<Step>)
    requires PossibleRun(l, ss)
    ensures var r := Run(l, ss); r.gone + r.tx.InFlight() == l.gone + l.tx.InFlight() + Written(ss)
    decreases |ss|
  {
    if ss == [] {
      assert l.gone + l.tx.InFlight() + [] == l.gone + l.tx.InFlight();
    } else {
      var l', d := Next(l, ss[0]), if ss[0].Write? then ss[0].data else [];
      Conservation(l', ss[1..]);
      StepConserves(l, ss[0]);
      Regroup(l.gone + l.tx.InFlight(), d, Written(ss[1..]));
    }
  }

  lemma StepConserves(l: Line, s: Step)
    requires Possible(l, s)
    ensures var l' := Next(l, s);
      l'.gone + l'.tx.InFlight() == l.gone + l.tx.InFlight() + if s.Write? then s.data else []
  {
    match s
    case Write(data) =>
      SendAppends(l.tx, data);
    case Drained(n) =>
      DrainDrops(l.tx, n);
  }

  lemma SendAppends(tx: Tx, data: Payload)
    requires |data| <= tx.free
    ensures Stored(tx, data).Send().InFlight() == tx.InFlight() + data
  {
    var used, n := 2048 - tx.free, |data|;
    var base := tx.wr + 0x1_0000 - used;
    BehindWrapped(tx.wr, used, n);
    StoredBehind(tx, base, used, data);
    SendMovesOn(tx, data);
    var mem := Stored(tx, data).mem;
    Ring.ReadWraps(mem, base, used + n);
    Ring.ReadWraps(mem, Wrap16(tx.wr + n) + 0x1_0000 - (used + n), used + n);
  }

  lemma SendMovesOn(tx: Tx, data: Payload)
    requires |data| <= tx.free
    ensures var tx' := Stored(tx, data).Send();
      tx'.mem == Stored(tx, data).mem && tx'.wr == Wrap16(tx.wr + |data|) && tx'.free == tx.free - |data|
  {
    WrapOfDistance(tx.wr, |data|);
  }

  lemma StoredBehind(tx: Tx, base: nat, used: nat, data: Payload)
    requires used + |data| <= 2048 && (base + used) % 0x1_0000 == tx.wr % 0x1_0000
    ensures Ring.Read(Stored(tx, data).mem, base, used + |data|) == Ring.Read(tx.mem, base, used) + data
  {
    Ring.WriteWraps(tx.mem, base + used, data);
    Ring.WriteWraps(tx.mem, tx.wr, data);
    Ring.WriteBehind(tx.mem, base, used, data);
  }

  lemma BehindWrapped(wr: u16, used: nat, n: nat)
    requires used + n <= 2048
    ensures (Wrap16(wr + n) + 0x1_0000 - (used + n)) % 0x1_0000 == (wr + 0x1_0000 - used) % 0x1_0000
    ensures (wr + 0x1_0000 - used + used) % 0x1_0000 == wr % 0x1_0000
  {
  }

  lemma DrainDrops(tx: Tx, n: nat)
    ensures tx.InFlight() == tx.InFlight()[..Min(n, 2048 - tx.free)] + tx.Drain(n).InFlight()
  {
    var used := 2048 - tx.free;
    var k := Min(n, used);
    var base := tx.wr + 0x1_0000 - used;
    Ring.ReadConcat(tx.mem, base, k, used - k);
    assert base + k == tx.wr + 0x1_0000 - (used - k);
  }
}
