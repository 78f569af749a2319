/** One UDP socket of the chip: its two rings, its pointer and size registers, and
    what the network side does to them while the processor is not looking. */
module UdpChip {
  import opened Words
  import Ring

  type Ip = s: seq<byte> | |s| == 4 witness [0, 0, 0, 0]
  type Payload = s: seq<byte> | |s| < 0x1_0000

  datatype Datagram = Datagram(ip: Ip, port: u16, payload: Payload) {
    /** As stored in the receive ring: an 8-byte header, then the payload. */
    function Frame(): (s: seq<byte>)
      ensures |s| == 8 + |payload|
    {
      ip + Be16(port) + Be16(|payload|) + payload
    }
  }

  type Size = n: u16 | n <= 2048

  /** `rd` is where the chip's unread data starts, `rdWritten` the RX_RD register
      the driver may have moved already, `log` all datagrams accepted so far. */
  datatype Rx = Rx(mem: Ring.Mem, rd: u16, rdWritten: u16, rsr: Size, log: seq<Datagram>) {
    function Backlog(): (s: seq<byte>)
      ensures |s| == rsr
    {
      Ring.Read(mem, rd, rsr)
    }

    function Deliver(d: Datagram): Rx {
      if rsr + 8 + |d.payload| <= 2048 then
        Rx(Ring.Write(mem, Wrap16(rd + rsr), d.Frame()), rd, rdWritten, rsr + 8 + |d.payload|, log + [d])
      else
        this
    }

    /** The RECV command frees everything before RX_RD. */
    function Release(): Rx
      requires Wrap16(rdWritten - rd) <= rsr
    {
      this.(rd := rdWritten, rsr := rsr - Wrap16(rdWritten - rd))
    }
  }

  /** `wr` is the committed TX_WR, which is what TX_WR reads as; `written` is the
      value last written to it, which SEND commits. */
  datatype Tx = Tx(mem: Ring.Mem, wr: u16, written: u16, free: Size, ip: Ip, port: u16, sent: seq<Datagram>) {
    function Drain(n: nat): Tx {
      this.(free := Min(2048, free + n))
    }

    /** The SEND command transmits from the committed pointer to the written one. */
    function Send(): Tx {
      var n := Wrap16(written - wr);
      this.(wr := written, free := Max(0, free - n),
            sent := sent + [Datagram(ip, port, Ring.Read(mem, wr, n))])
    }

    /** Store a chunk `offset` bytes behind the committed pointer. */
    function Put(offset: u16, data: seq<byte>): Tx {
      var ptr := Wrap16(wr + offset);
      this.(mem := Ring.Write(mem, ptr, data), written := Wrap16(ptr + |data|))
    }

    /** Bytes committed earlier that the chip has not transmitted yet. */
    function InFlight(): seq<byte> {
      Ring.Read(mem, wr + 0x1_0000 - (2048 - free), 2048 - free)
    }
  }

  datatype Event = Arrival(d: Datagram) | Drained(n: nat)

  datatype Chip = Chip(rx: Rx, tx: Tx) {
    function Happen(e: Event): Chip {
      match e
      case Arrival(d) => this.(rx := rx.Deliver(d))
      case Drained(n) => this.(tx := tx.Drain(n))
    }

    function HappenAll(es: seq<Event>): Chip
      decreases |es|
    {
      if es == [] then this else Happen(es[0]).HappenAll(es[1..])
    }
  }

  /** What happens between one register access and the next. */
  type Script = nat -> seq<Event>

  function After(c: Chip, script: Script, t: nat, k: nat): Chip
    decreases k
  {
    if k == 0 then c else After(c, script, t, k - 1).HappenAll(script(t + k - 1))
  }

  function Frames(ds: seq<Datagram>): seq<byte> {
    if ds == [] then [] else ds[0].Frame() + Frames(ds[1..])
  }

  lemma {:induction false} FramesConcat(a: seq<Datagram>, b: seq<Datagram>)
    ensures Frames(a + b) == Frames(a) + Frames(b)
  {
    if a == [] {
      assert a + b == b;
    } else {
      assert (a + b)[1..] == a[1..] + b;
      FramesConcat(a[1..], b);
    }
  }

  /** The network side only appends whole frames... */
  ghost predicate RxEvolves(rx: Rx, rx': Rx) {
    && rx'.rd == rx.rd && rx'.rdWritten == rx.rdWritten
    && rx.log <= rx'.log
    && rx'.Backlog() == rx.Backlog() + Frames(rx'.log[|rx.log|..])
  }

  /** ... and only frees transmit space. */
  ghost predicate Evolves(c: Chip, c': Chip) {
    && RxEvolves(c.rx, c'.rx)
    && c'.tx == c.tx.(free := c'.tx.free)
    && c.tx.free <= c'.tx.free
  }

  lemma EvolvesTransitive(a: Chip, b: Chip, c: Chip)
    requires Evolves(a, b) && Evolves(b, c)
    ensures Evolves(a, c)
  {
    RxEvolvesTransitive(a.rx, b.rx, c.rx);
  }

  lemma RxEvolvesTransitive(a: Rx, b: Rx, c: Rx)
    requires RxEvolves(a, b) && RxEvolves(b, c)
    ensures RxEvolves(a, c)
  {
    var ab, bc := b.log[|a.log|..], c.log[|b.log|..];
    assert c.log[|a.log|..] == ab + bc;
    FramesConcat(ab, bc);
    Regroup(a.Backlog(), Frames(ab), Frames(bc));
  }

  lemma DeliverAppends(rx: Rx, d: Datagram)
    ensures var rx' := rx.Deliver(d);
      rx' == rx || (rx'.log == rx.log + [d] && rx'.Backlog() == rx.Backlog() + d.Frame())
  {
    if rx.rsr + 8 + |d.payload| <= 2048 {
      Ring.WriteWraps(rx.mem, rx.rd + rx.rsr, d.Frame());
      Ring.WriteBehind(rx.mem, rx.rd, rx.rsr, d.Frame());
    }
  }

  lemma HappenEvolves(c: Chip, e: Event)
    ensures Evolves(c, c.Happen(e))
  {
    var c' := c.Happen(e);
    if e.Arrival? {
      DeliverAppends(c.rx, e.d);
    }
    if c'.rx == c.rx {
      assert c'.rx.log[|c.rx.log|..] == [];
    } else {
      assert c'.rx.log[|c.rx.log|..] == [e.d];
      assert Frames([e.d]) == e.d.Frame();
    }
  }

  lemma {:induction false} HappenAllEvolves(c: Chip, es: seq<Event>)
    ensures Evolves(c, c.HappenAll(es))
    decreases |es|
  {
    if es == [] {
      assert c.rx.log[|c.rx.log|..] == [];
    } else {
      HappenEvolves(c, es[0]);
      HappenAllEvolves(c.Happen(es[0]), es[1..]);
      EvolvesTransitive(c, c.Happen(es[0]), c.HappenAll(es));
    }
  }

  lemma {:induction false} AfterEvolves(c: Chip, script: Script, t: nat, j: nat, k: nat)
    requires j <= k
    ensures Evolves(After(c, script, t, j), After(c, script, t, k))
    decreases k
  {
    if j == k {
      HappenAllEvolves(After(c, script, t, k), []);
    } else {
      AfterEvolves(c, script, t, j, k - 1);
      HappenAllEvolves(After(c, script, t, k - 1), script(t + k - 1));
      EvolvesTransitive(After(c, script, t, j), After(c, script, t, k - 1), After(c, script, t, k));
    }
  }
}
