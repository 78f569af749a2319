/** The socket driver over one chip socket.  Between any two register accesses the
    chip may accept datagrams and free transmit space as its script says; the
    contracts hold for every script. */
module SocketDriver {
  import opened Words
  import opened UdpChip
  import opened UdpSend
  import opened SizeRegister
  import Ring

  /** The driver took `data` off the front of the receive data while the chip
      appended frames behind it. */
  ghost predicate Took(rx: Rx, rx': Rx, data: seq<byte>) {
    && rx.log <= rx'.log
    && data + rx'.Backlog() == rx.Backlog() + Frames(rx'.log[|rx.log|..])
    && rx'.rdWritten == rx'.rd
  }

  /** The same, and on the transmit side only space was freed. */
  ghost predicate Consumes(c: Chip, c': Chip, data: seq<byte>) {
    && Took(c.rx, c'.rx, data)
    && c'.tx == c.tx.(free := c'.tx.free)
    && c.tx.free <= c'.tx.free
  }

  lemma EvolvingTakesNothing(rx: Rx, rx': Rx)
    requires RxEvolves(rx, rx') && rx.rdWritten == rx.rd
    ensures Took(rx, rx', [])
  {
    assert [] + rx'.Backlog() == rx'.Backlog();
  }

  lemma SameTakesNothing(rx: Rx)
    requires rx.rdWritten == rx.rd
    ensures Took(rx, rx, [])
  {
    assert rx.log[|rx.log|..] == [];
    assert [] + rx.Backlog() == rx.Backlog() + [];
  }

  /** The chip appends and frees no differently while RX_RD is ahead of its data. */
  lemma EvolvesAhead(c: Chip, c1: Chip, ptr: u16, c2: Chip)
    requires Evolves(c, c1) && Evolves(c1.(rx := c1.rx.(rdWritten := ptr)), c2)
    ensures c2.rx.rdWritten == ptr && c2.rx.rd == c1.rx.rd
    ensures Evolves(c, c2.(rx := c2.rx.(rdWritten := c.rx.rdWritten)))
    ensures c1.rx.Backlog() <= c2.rx.Backlog()
  {
    EvolvesTransitive(c, c1, c2.(rx := c2.rx.(rdWritten := c.rx.rdWritten)));
  }

  /** Moving RX_RD and issuing RECV hands the first `n` bytes back to the ring. */
  lemma ReleaseConsumes(c: Chip, c1: Chip, c2: Chip, n: nat)
    requires c.rx.rdWritten == c.rx.rd
    requires Evolves(c, c1) && n <= c1.rx.rsr
    requires Evolves(c1.(rx := c1.rx.(rdWritten := Wrap16(c1.rx.rd + n))), c2)
    ensures Wrap16(c2.rx.rdWritten - c2.rx.rd) == n <= c2.rx.rsr
    ensures Consumes(c, c2.(rx := c2.rx.Release()), c1.rx.Backlog()[..n])
  {
    EvolvesAhead(c, c1, Wrap16(c1.rx.rd + n), c2);
    ReleaseDropsFront(c2.rx, n);
    assert c1.rx.Backlog()[..n] == c2.rx.Backlog()[..n];
  }

  lemma ReleaseDropsFront(rx: Rx, n: nat)
    requires n <= rx.rsr && rx.rdWritten == Wrap16(rx.rd + n)
    ensures Wrap16(rx.rdWritten - rx.rd) == n
    ensures rx.Backlog() == rx.Backlog()[..n] + rx.Release().Backlog()
  {
    WrapOfDistance(rx.rd, n);
    Ring.ReadConcat(rx.mem, rx.rd, n, rx.rsr - n);
    Ring.ReadWraps(rx.mem, rx.rd + n, rx.rsr - n);
  }

  /** The two size registers as the driver can see them from now on. */
  function ReceivedSize(c: Chip, script: Script, t: nat): History {
    (k: nat) => Holding(After(c, script, t, k).rx.rsr)
  }

  function FreeSize(c: Chip, script: Script, t: nat): History {
    (k: nat) => Holding(After(c, script, t, k).tx.free)
  }

  lemma SizeRises(x: u16, y: u16)
    requires x <= y
    ensures Holding(x).AtMost(Holding(y))
  {
    ValueOrder(Holding(x), Holding(y));
  }

  lemma SizesRise(c: Chip, script: Script, t: nat)
    ensures Rising(ReceivedSize(c, script, t), 0)
    ensures Rising(FreeSize(c, script, t), 0)
  {
    forall i: nat
      ensures Rises(ReceivedSize(c, script, t), i)
      ensures Rises(FreeSize(c, script, t), i)
    {
      AfterEvolves(c, script, t, i, i + 1);
      SizeRises(After(c, script, t, i).rx.rsr, After(c, script, t, i + 1).rx.rsr);
      SizeRises(After(c, script, t, i).tx.free, After(c, script, t, i + 1).tx.free);
    }
  }

  /** The received size only changes when a datagram is accepted. */
  lemma SameLogSameSize(c: Chip, c': Chip)
    requires Evolves(c, c') && |c'.rx.log| == |c.rx.log|
    ensures c'.rx.rsr == c.rx.rsr
  {
    assert c'.rx.log[|c.rx.log|..] == [];
  }

  lemma ReceivedAt(c: Chip, script: Script, t: nat, k: nat)
    ensures At(ReceivedSize(c, script, t), k) == Holding(After(c, script, t, k).rx.rsr)
  {
  }

  /** A zero size while data is waiting needs an arrival during the reading. */
  lemma ZeroNeedsArrival(c: Chip, script: Script, t: nat, k: nat)
    ensures Torn(ReceivedSize(c, script, t), 0, k) ==>
      c.rx.rsr == 0 || |After(c, script, t, k).rx.log| > |c.rx.log|
  {
    if k >= 2 {
      var i, j := k - 2, k - 1;
      AfterEvolves(c, script, t, 0, i);
      AfterEvolves(c, script, t, i, j);
      AfterEvolves(c, script, t, j, k);
      if |After(c, script, t, j).rx.log| == |c.rx.log| {
        SameLogSameSize(c, After(c, script, t, i));
        SameLogSameSize(After(c, script, t, i), After(c, script, t, j));
        ReceivedAt(c, script, t, i);
        ReceivedAt(c, script, t, j);
        if Torn(ReceivedSize(c, script, t), 0, k) { TornAtRest(ReceivedSize(c, script, t), k, c.rx.rsr); }
      }
    }
  }

  lemma HoldingHigh(x: u16)
    ensures Holding(x).hi > 0 <==> x >= 0x100
  {
  }

  /** Nor can it come from 256 bytes or more. */
  lemma ZeroNeedsFew(c: Chip, script: Script, t: nat)
    requires Rising(ReceivedSize(c, script, t), 0)
    requires Stable(ReceivedSize(c, script, t), 0, ZERO).value == ZERO
    ensures c.rx.rsr < 0x100
  {
    HoldingHigh(c.rx.rsr);
    ReceivedAt(c, script, t, 0);
    if c.rx.rsr >= 0x100 { FreshEnough(ReceivedSize(c, script, t), 0); }
  }

  /** The length `bufferData` takes if it starts at access `t`. */
  ghost function Taken(c: Chip, script: Script, t: nat, len: u16): u16 {
    SizesRise(c, script, t);
    ChunkSize(len, FreeSize(c, script, t), 0)
  }

  /** How many accesses that takes. */
  ghost function TakenIn(c: Chip, script: Script, t: nat, len: u16): nat {
    SizesRise(c, script, t);
    ChunkEnd(len, FreeSize(c, script, t), 0)
  }

  lemma FreeAt(c: Chip, script: Script, t: nat, k: nat)
    ensures At(FreeSize(c, script, t), k).Value() == After(c, script, t, k).tx.free
  {
  }

  /** The first `n` bytes found at a buffer: its own, then what lies behind it. */
  function Fetched(data: seq<byte>, beyond: nat -> byte, n: nat): (s: seq<byte>)
    ensures |s| == n
    ensures n <= |data| ==> s == data[..n]
  {
    seq(n, i requires 0 <= i < n => if i < |data| then data[i] else beyond(i))
  }

  /** SEND_OK is seen at poll `2 * n` and no TIMEOUT at an earlier odd poll. */
  ghost predicate Acknowledged(sendOk: nat -> bool, timeout: nat -> bool, n: nat) {
    sendOk(2 * n) && forall i: nat :: i < n ==> !timeout(2 * i + 1)
  }

  // ----- Writing -----

  /** What one write leads to: the chip, the next access, and the offset of the next chunk. */
  datatype Written = Written(chip: Chip, time: nat, offset: u16)

  /** A way to write: from a chip, the next access, and an offset, what given data lead to. */
  type Writer = (Chip, nat, u16, Payload) -> Written

  /** `bufferData` that takes `n` bytes and `k` accesses. */
  function WriteOf(c: Chip, script: Script, t: nat, offset: u16, data: Payload, beyond: nat -> byte,
                   n: u16, k: nat): Written {
    var at := After(c, script, t, k);
    Written(at.(tx := at.tx.Put(offset, Fetched(data, beyond, n))), t + k, Wrap16(offset + n))
  }

  /** `bufferData`, under a script. */
  ghost function DriverWrite(c: Chip, script: Script, t: nat, offset: u16, data: Payload,
                             beyond: nat -> byte): Written {
    WriteOf(c, script, t, offset, data, beyond, Taken(c, script, t, |data|), TakenIn(c, script, t, |data|))
  }

  ghost predicate IsDriver(write: Writer, script: Script, beyond: nat -> byte) {
    forall c: Chip, t: nat, offset: u16, data: Payload {:trigger DriverWrite(c, script, t, offset, data, beyond)} ::
      write(c, t, offset, data) == DriverWrite(c, script, t, offset, data, beyond)
  }

  /** A write of the driver leads to `w`: said of whatever describes the driver's writes,
      for those who need not know how long a reading takes. */
  ghost predicate Wrote(c: Chip, script: Script, t: nat, offset: u16, data: Payload, beyond: nat -> byte, w: Written) {
    forall write: Writer :: IsDriver(write, script, beyond) ==> write(c, t, offset, data) == w
  }

  lemma DriverWrote(c: Chip, script: Script, t: nat, offset: u16, data: Payload, beyond: nat -> byte,
                    n: u16, k: nat, w: Written)
    ensures
      var at := After(c, script, t, k);
      (&& n == Taken(c, script, t, |data|) && k == TakenIn(c, script, t, |data|)
       && w.time == t + k && w.offset == Wrap16(offset + n)
       && w.chip == at.(tx := at.tx.Put(offset, Fetched(data, beyond, n)))) ==>
        Wrote(c, script, t, offset, data, beyond, w)
  {
    if n == Taken(c, script, t, |data|) && k == TakenIn(c, script, t, |data|) {
      assert DriverWrite(c, script, t, offset, data, beyond) == WriteOf(c, script, t, offset, data, beyond, n, k);
    }
  }

  class Socket {
    const script: Script
    var time: nat
    var chip: Chip
    /** SnSR reads LISTEN, CLOSED or CLOSE_WAIT. */
    var atEof: bool

    constructor (script: Script, chip: Chip)
      ensures this.script == script && this.chip == chip && !atEof
    {
      this.script, this.chip := script, chip;
      time, atEof := 0, false;
    }

    /** `k` register accesses go by. */
    method Elapse(k: nat)
      modifies this`time, this`chip
      ensures chip == After(old(chip), script, old(time), k) && time == old(time) + k
      ensures Evolves(old(chip), chip)
    {
      AfterEvolves(chip, script, time, 0, k);
      chip, time := After(chip, script, time, k), time + k;
    }

    method GetRXReceivedSize() returns (size: u16, ghost at: Chip)
      modifies this`time, this`chip
      ensures Evolves(old(chip), at) && Evolves(at, chip) && Evolves(old(chip), chip)
      ensures size != 0 ==> size == at.rx.rsr
      ensures size == 0 && old(chip).rx.rsr > 0 ==> old(chip).rx.rsr < 0x100 && |chip.rx.log| > |old(chip).rx.log|
    {
      var reg := ReceivedSize(chip, script, time);
      SizesRise(chip, script, time);
      var val, k := ReadStable(reg, 0);
      size := val.Value();
      ValueOrder(val, ZERO);
      ghost var j :| 0 <= j < k && (size != 0 ==> At(reg, j) == val);
      at := After(chip, script, time, j);
      AfterEvolves(chip, script, time, 0, j);
      AfterEvolves(chip, script, time, j, k);
      if size == 0 {
        ZeroNeedsArrival(chip, script, time, k);
        ZeroNeedsFew(chip, script, time);
      }
      Elapse(k);
    }

    /** `recv`: how many bytes came, 0 or -1 if none, and the bytes. */
    method Recv(len: nat) returns (ret: int, data: seq<byte>, ghost at: Chip)
      requires chip.rx.rdWritten == chip.rx.rd
      modifies this`time, this`chip
      ensures Consumes(old(chip), chip, data)
      ensures |data| == Max(ret, 0) && -1 <= ret <= len
      ensures Evolves(old(chip), at) && at.rx.log <= chip.rx.log
      ensures ret > 0 ==> ret == Min(len, at.rx.rsr)
      ensures ret <= 0 < len && old(chip).rx.rsr > 0 ==>
        old(chip).rx.rsr < 0x100 && |chip.rx.log| > |old(chip).rx.log|
    {
      var size;
      size, at := GetRXReceivedSize();
      ret, data := Signed16(size), [];
      if ret == 0 {
        ret := if atEof then 0 else -1;
      } else if ret > len {
        ret := len;
      }
      ghost var c1 := chip;
      if ret > 0 {
        data := Ring.Read(chip.rx.mem, chip.rx.rdWritten, ret);
        assert at.rx.rsr <= c1.rx.rsr;
        assert data == c1.rx.Backlog()[..ret];
        chip := chip.(rx := chip.rx.(rdWritten := Wrap16(chip.rx.rdWritten + ret)));
        Elapse(1);
        ReleaseConsumes(old(chip), c1, chip, ret);
        chip := chip.(rx := chip.rx.Release());
      }
    }

    /** `peek`: the byte at RX_RD, which stays where it is. */
    method Peek() returns (b: byte)
      modifies this`time, this`chip
      ensures Evolves(old(chip), chip)
      ensures b == chip.rx.mem[Ring.Slot(chip.rx.rdWritten, 0)]
    {
      Elapse(1);
      b := Ring.Read(chip.rx.mem, chip.rx.rdWritten, 1)[0];
    }

    /** The first half of `bufferData`: how much to take.  It fits the free space; it is
        as much as asked if the length is safe, and the length cut to the free size if
        that does not change. */
    method ChunkLength(len: u16) returns (ret: u16)
      modifies this`time, this`chip
      ensures ret == Taken(old(chip), script, old(time), len)
      ensures time == old(time) + TakenIn(old(chip), script, old(time), len)
      ensures chip == After(old(chip), script, old(time), TakenIn(old(chip), script, old(time), len))
      ensures ret <= chip.tx.free
      ensures Safe(len, old(chip).tx.free) ==> ret == len
      ensures chip.tx.free == old(chip).tx.free ==> ret == Min(len, chip.tx.free)
      ensures Evolves(old(chip), chip)
    {
      var k;
      ret, k := ReadChunk(len);
      Elapse(k);
    }

    /** The one or two readings of the free size, and how many accesses they take. */
    method ReadChunk(len: u16) returns (ret: u16, k: nat)
      ensures ret == Taken(chip, script, time, len) && k == TakenIn(chip, script, time, len)
      ensures var free := After(chip, script, time, k).tx.free;
        && ret <= free && (free == chip.tx.free ==> ret == Min(len, free))
      ensures Safe(len, chip.tx.free) ==> ret == len
    {
      SizesRise(chip, script, time);
      FreeAt(chip, script, time, 0);
      if Safe(len, chip.tx.free) { SafeIsTaken(len, FreeSize(chip, script, time)); }
      ret, k := BufferChunk(len, FreeSize(chip, script, time), 0);
      FreeAt(chip, script, time, k);
      ValueOrder(At(FreeSize(chip, script, time), 0), At(FreeSize(chip, script, time), k));
    }

    /** `bufferData`: a chunk of that length goes to the given offset behind the committed
        pointer. */
    method BufferData(offset: u16, data: Payload, beyond: nat -> byte) returns (ret: u16, chunk: Payload)
      modifies this`time, this`chip
      ensures chunk == Fetched(data, beyond, ret) && |chunk| == ret
      ensures Wrote(old(chip), script, old(time), offset, data, beyond, Written(chip, time, Wrap16(offset + ret)))
      ensures chip.tx == old(chip).tx.Put(offset, chunk).(free := chip.tx.free)
      ensures ret <= chip.tx.free && old(chip).tx.free <= chip.tx.free
      ensures Safe(|data|, old(chip).tx.free) ==> ret == |data|
      ensures chip.tx.free == old(chip).tx.free ==> ret == Min(|data|, chip.tx.free)
      ensures RxEvolves(old(chip).rx, chip.rx)
    {
      ghost var before := chip.tx;
      ret := ChunkLength(|data|);
      chunk := Fetched(data, beyond, ret);
      PutKeepsFree(before, chip.tx.free, offset, chunk);
      chip := chip.(tx := chip.tx.Put(offset, chunk));
      DriverWrote(old(chip), script, old(time), offset, data, beyond, ret, time - old(time),
                  Written(chip, time, Wrap16(offset + ret)));
    }

    method StartUdp(ip: Ip, port: u16) returns (ok: bool)
      modifies this`chip
      ensures ok <==> ip != [0, 0, 0, 0] && port != 0
      ensures chip == if ok then old(chip).(tx := old(chip).tx.(ip := ip, port := port)) else old(chip)
    {
      ok := !((ip[0] == 0 && ip[1] == 0 && ip[2] == 0 && ip[3] == 0) || port == 0);
      if ok {
        chip := chip.(tx := chip.tx.(ip := ip, port := port));
      }
    }

    /** `sendUDP`: issue SEND, then poll the interrupt register, alternately for
        SEND_OK and for TIMEOUT.  The chip raises one of them by poll `limit`. */
    method SendUdp(sendOk: nat -> bool, timeout: nat -> bool, ghost limit: nat) returns (ret: int)
      requires forall i: nat :: i >= limit ==> sendOk(i) || timeout(i)
      requires forall i: nat, j: nat :: i <= j && timeout(i) ==> timeout(j)
      modifies this`time, this`chip
      ensures Evolves(old(chip).(tx := old(chip).tx.Send()), chip)
      ensures ret == 1 || ret == 0
      ensures ret == 1 <==> exists n :: Acknowledged(sendOk, timeout, n)
    {
      chip := chip.(tx := chip.tx.Send());
      var i := 0;
      while !sendOk(2 * i)
        invariant forall k: nat :: k < i ==> !timeout(2 * k + 1)
        invariant forall k: nat :: k < i ==> !Acknowledged(sendOk, timeout, k)
        decreases limit - i
      {
        if timeout(2 * i + 1) {
          Elapse(2 * i + 2);
          return 0;
        }
        i := i + 1;
      }
      Elapse(2 * i + 1);
      assert Acknowledged(sendOk, timeout, i);
      return 1;
    }
  }

  // ----- What the chip can do between two accesses -----

  /** `e` happens right after the first access past `t + j`. */
  function Once(t: nat, j: nat, e: Event): Script {
    (i: nat) => if i == t + j then [e] else []
  }

  lemma {:induction false} AfterOnce(c: Chip, t: nat, j: nat, e: Event, k: nat)
    ensures After(c, Once(t, j, e), t, k) == if k <= j then c else c.Happen(e)
    decreases k
  {
    if k > 0 {
      AfterOnce(c, t, j, e, k - 1);
      var before := After(c, Once(t, j, e), t, k - 1);
      assert before.HappenAll([]) == before;
      assert [e][1..] == [] && before.HappenAll([e]) == before.Happen(e).HappenAll([]);
      assert before.Happen(e).HappenAll([]) == before.Happen(e);
    }
  }

  /** The chip may free space so that the register jumps like that. */
  lemma FreedLater(c: Chip, t: nat, j: nat, free: Size)
    requires c.tx.free <= free
    ensures Jumps(FreeSize(c, Once(t, j, Drained(free - c.tx.free)), t), Holding(c.tx.free), Holding(free), j)
  {
    var e := Drained(free - c.tx.free);
    forall k: nat
      ensures At(FreeSize(c, Once(t, j, e), t), k) == if k <= j then Holding(c.tx.free) else Holding(free)
    {
      AfterOnce(c, t, j, e, k);
    }
  }

  /** A length that is not safe can be taken too long, unless the whole ring is asked for. */
  lemma UnsafeIsOverrun(c: Chip, t: nat, len: u16) returns (script: Script)
    requires !Safe(len, c.tx.free) && len < 2048
    ensures Taken(c, script, t, len) == if len <= c.tx.free then 0x100 else len + 1
    ensures Taken(c, script, t, len) > len
  {
    if len <= c.tx.free {
      script := FreedWhileTorn(c, t, len);
    } else {
      script := FreedBetweenReadings(c, t, len);
    }
  }

  lemma FreedWhileTorn(c: Chip, t: nat, len: u16) returns (script: Script)
    requires 0 < len && c.tx.free < 0x100
    ensures Taken(c, script, t, len) == 0x100
  {
    HoldingHigh(c.tx.free);
    script := Once(t, 0, Drained(0x100 - c.tx.free));
    FreedLater(c, t, 0, 0x100);
    ValueOrder(Holding(0x100), Register(1, 0));
    TornChunk(len, FreeSize(c, script, t), Holding(c.tx.free));
  }

  lemma FreedBetweenReadings(c: Chip, t: nat, len: u16) returns (script: Script)
    requires c.tx.free < len < 2048
    ensures Taken(c, script, t, len) == len + 1
  {
    var f, free := Holding(c.tx.free), len + 1;
    script := Once(t, Turn(f), Drained(free - c.tx.free));
    FreedLater(c, t, Turn(f), free);
    SizeRises(c.tx.free, free);
    OverrunChunk(len, FreeSize(c, script, t), f, Holding(free));
  }

  /** Whatever the chip frees meanwhile, `bufferData` takes exactly as much as asked if
      and only if the length is safe, and never more than asked if and only if the
      length is safe or at least the ring size. */
  lemma BufferDataIsExactIff(c: Chip, t: nat, len: u16)
    ensures (forall script: Script :: Taken(c, script, t, len) == len) <==> Safe(len, c.tx.free)
    ensures (forall script: Script :: Taken(c, script, t, len) <= len) <==> Safe(len, c.tx.free) || len >= 2048
  {
    forall script: Script
      ensures Safe(len, c.tx.free) ==> Taken(c, script, t, len) == len
      ensures len >= 2048 ==> Taken(c, script, t, len) <= len
    {
      TakenWithin(c, script, t, len);
    }
    if !Safe(len, c.tx.free) {
      if len < 2048 {
        var script := UnsafeIsOverrun(c, t, len);
      } else {
        AtRestIsCut(c, t, len);
      }
    }
  }

  lemma TakenWithin(c: Chip, script: Script, t: nat, len: u16)
    ensures Safe(len, c.tx.free) ==> Taken(c, script, t, len) == len
    ensures len >= 2048 ==> Taken(c, script, t, len) <= len
  {
    var reg := FreeSize(c, script, t);
    SizesRise(c, script, t);
    FreeAt(c, script, t, 0);
    if Safe(len, c.tx.free) { SafeIsTaken(len, reg); }
    forall i: nat ensures AtOrBelow(reg, i, 2048) {
      FreeAt(c, script, t, i);
    }
    if len >= 2048 { TakenAtMost(len, reg, c.tx.free, 2048); }
  }

  /** With nothing freed, the free size is the limit. */
  lemma AtRestIsCut(c: Chip, t: nat, len: u16)
    ensures Taken(c, Once(t, 0, Drained(0)), t, len) == Min(len, c.tx.free)
  {
    var reg := FreeSize(c, Once(t, 0, Drained(0)), t);
    FreedLater(c, t, 0, c.tx.free);
    forall i: nat ensures At(reg, i) == At(reg, 0) {
    }
    ChunkAtRest(len, reg, 0);
    FreeAt(c, Once(t, 0, Drained(0)), t, 0);
  }

  /** What SEND transmits after one write of `data` that began at access `t`. */
  ghost function SentAfterWrite(c: Chip, script: Script, t: nat, data: Payload, beyond: nat -> byte): seq<Datagram> {
    PutAll(c.tx, 0, [Fetched(data, beyond, Taken(c, script, t, |data|))]).Send().sent
  }

  /** A packet of one write leaves as written under every script exactly if its length is
      safe: below 256 bytes of free space only the empty one does. */
  lemma OneWriteIsSentIff(c: Chip, t: nat, data: Payload, beyond: nat -> byte)
    ensures (forall script: Script ::
        SentAfterWrite(c, script, t, data, beyond) == c.tx.sent + [Datagram(c.tx.ip, c.tx.port, data)]) <==>
      Safe(|data|, c.tx.free)
  {
    BufferDataIsExactIff(c, t, |data|);
    forall script: Script
      ensures SentAfterWrite(c, script, t, data, beyond) == c.tx.sent + [Datagram(c.tx.ip, c.tx.port, data)] ==>
        Taken(c, script, t, |data|) == |data|
      ensures Safe(|data|, c.tx.free) ==>
        SentAfterWrite(c, script, t, data, beyond) == c.tx.sent + [Datagram(c.tx.ip, c.tx.port, data)]
    {
      WriteIsSent(c, script, t, data, beyond);
    }
  }

  lemma WriteIsSent(c: Chip, script: Script, t: nat, data: Payload, beyond: nat -> byte)
    ensures var sent := SentAfterWrite(c, script, t, data, beyond);
      && |sent| == |c.tx.sent| + 1 && |sent[|c.tx.sent|].payload| == Taken(c, script, t, |data|)
      && (Safe(|data|, c.tx.free) ==> sent == c.tx.sent + [Datagram(c.tx.ip, c.tx.port, data)])
  {
    var chunk := Fetched(data, beyond, Taken(c, script, t, |data|));
    assert Concat([chunk]) == chunk;
    TransmittedPayload(c.tx, [chunk]);
    TakenWithin(c, script, t, |data|);
    if Safe(|data|, c.tx.free) { SentAsWrittenIff(c.tx, [data]); assert Concat([data]) == data; }
  }

  ghost predicate ReadsZero(c: Chip, script: Script, t: nat) {
    SizesRise(c, script, t);
    Stable(ReceivedSize(c, script, t), 0, ZERO).value == ZERO
  }

  /** The received size can read as zero exactly if fewer than 256 bytes are waiting. */
  lemma ReadsZeroIff(c: Chip, t: nat)
    ensures (exists script: Script :: ReadsZero(c, script, t)) <==> c.rx.rsr < 0x100
  {
    forall script: Script ensures ReadsZero(c, script, t) ==> c.rx.rsr < 0x100 {
      SizesRise(c, script, t);
      if ReadsZero(c, script, t) { ZeroNeedsFew(c, script, t); }
    }
    if c.rx.rsr < 0x100 {
      var payload: Payload := seq(512 - 8 - c.rx.rsr, _ => 0);
      var e := Arrival(Datagram([0, 0, 0, 0], 0, payload));
      var script := Once(t, 0, e);
      var reg := ReceivedSize(c, script, t);
      SizesRise(c, script, t);
      AfterOnce(c, t, 0, e, 0);
      AfterOnce(c, t, 0, e, 1);
      ReceivedAt(c, script, t, 0);
      ReceivedAt(c, script, t, 1);
      HoldingHigh(c.rx.rsr);
      ValueOrder(Holding(512), Register(2, 0));
      TornRead(reg);
      assert ReadsZero(c, script, t);
    }
  }
}
