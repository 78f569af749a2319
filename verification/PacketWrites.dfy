/** Packets of any number of writes, as `bufferData` takes them one after the other
    while the chip frees space. */
module PacketWrites {
  import opened Words
  import opened UdpChip
  import opened UdpSend
  import opened SizeRegister
  import opened SocketDriver

  ghost function Driver(script: Script, beyond: nat -> byte): (write: Writer)
    ensures IsDriver(write, script, beyond)
  {
    (c: Chip, t: nat, offset: u16, data: Payload) => DriverWrite(c, script, t, offset, data, beyond)
  }

  /** The transmit side after a write of each of the buffers. */
  function WrittenBy(c: Chip, write: Writer, t: nat, offset: u16, buffers: seq<Payload>): Tx
    decreases |buffers|
  {
    if buffers == [] then c.tx
    else
      var w := write(c, t, offset, buffers[0]);
      WrittenBy(w.chip, write, w.time, w.offset, buffers[1..])
  }

  lemma WroteFirst(c: Chip, script: Script, write: Writer, t: nat, offset: u16, buffers: seq<Payload>,
                   beyond: nat -> byte, w: Written)
    requires IsDriver(write, script, beyond) && buffers != [] && Wrote(c, script, t, offset, buffers[0], beyond, w)
    ensures WrittenBy(c, write, t, offset, buffers) == WrittenBy(w.chip, write, w.time, w.offset, buffers[1..])
  {
  }

  // ----- Safe writes -----

  ghost predicate AllSafe(buffers: seq<Payload>, free: u16) {
    forall i :: 0 <= i < |buffers| ==> Safe(|buffers[i]|, free)
  }

  /** No write commits or sends anything, and one of a safe length stores just its data. */
  ghost predicate Stores(write: Writer) {
    forall c: Chip, t: nat, offset: u16, data: Payload ::
      var w := write(c, t, offset, data);
      && w.chip.tx.wr == c.tx.wr && w.chip.tx.sent == c.tx.sent
      && (Safe(|data|, c.tx.free) ==>
            && w.offset == Wrap16(offset + |data|)
            && c.tx.free <= w.chip.tx.free
            && w.chip.tx == c.tx.Put(offset, data).(free := w.chip.tx.free))
  }

  lemma DriverStores(script: Script, beyond: nat -> byte)
    ensures Stores(Driver(script, beyond))
  {
    forall c: Chip, t: nat, offset: u16, data: Payload
      ensures var w := DriverWrite(c, script, t, offset, data, beyond);
        && w.chip.tx.wr == c.tx.wr && w.chip.tx.sent == c.tx.sent
        && (Safe(|data|, c.tx.free) ==>
              && w.offset == Wrap16(offset + |data|)
              && c.tx.free <= w.chip.tx.free
              && w.chip.tx == c.tx.Put(offset, data).(free := w.chip.tx.free))
    {
      DriverStoresData(c, script, t, offset, data, beyond);
    }
  }

  lemma DriverStoresData(c: Chip, script: Script, t: nat, offset: u16, data: Payload, beyond: nat -> byte)
    ensures var w := DriverWrite(c, script, t, offset, data, beyond);
      && w.chip.tx.wr == c.tx.wr && w.chip.tx.sent == c.tx.sent
      && (Safe(|data|, c.tx.free) ==>
            && w.offset == Wrap16(offset + |data|)
            && c.tx.free <= w.chip.tx.free
            && w.chip.tx == c.tx.Put(offset, data).(free := w.chip.tx.free))
  {
    var n, k := Taken(c, script, t, |data|), TakenIn(c, script, t, |data|);
    if Safe(|data|, c.tx.free) { TakenWithin(c, script, t, |data|); }
    StoresData(c, script, t, offset, data, beyond, n, k);
  }

  lemma StoresData(c: Chip, script: Script, t: nat, offset: u16, data: Payload, beyond: nat -> byte, n: u16, k: nat)
    ensures var w := WriteOf(c, script, t, offset, data, beyond, n, k);
      && w.chip.tx.wr == c.tx.wr && w.chip.tx.sent == c.tx.sent
      && (n == |data| ==>
            && w.offset == Wrap16(offset + |data|)
            && c.tx.free <= w.chip.tx.free
            && w.chip.tx == c.tx.Put(offset, data).(free := w.chip.tx.free))
  {
    AfterEvolves(c, script, t, 0, k);
    assert Fetched(data, beyond, |data|) == data;
    PutKeepsFree(c.tx, After(c, script, t, k).tx.free, offset, Fetched(data, beyond, n));
  }

  lemma {:induction false} PutAllKeepsFree(tx: Tx, free: Size, offset: u16, chunks: seq<Payload>)
    ensures PutAll(tx.(free := free), offset, chunks) == PutAll(tx, offset, chunks).(free := free)
    decreases |chunks|
  {
    if chunks != [] {
      PutKeepsFree(tx, free, offset, chunks[0]);
      PutAllKeepsFree(tx.Put(offset, chunks[0]), free, Wrap16(offset + |chunks[0]|), chunks[1..]);
    }
  }

  /** Safe writes store all buffers, whatever the chip frees. */
  lemma {:induction false} SafeWrites(c: Chip, write: Writer, t: nat, offset: u16, buffers: seq<Payload>)
    requires Stores(write) && AllSafe(buffers, c.tx.free)
    ensures var tx := WrittenBy(c, write, t, offset, buffers); tx == PutAll(c.tx, offset, buffers).(free := tx.free)
    decreases |buffers|
  {
    if buffers != [] {
      var data, rest := buffers[0], buffers[1..];
      assert Safe(|data|, c.tx.free);
      var w := write(c, t, offset, data);
      forall i | 0 <= i < |rest| ensures Safe(|rest[i]|, w.chip.tx.free) {
        assert Safe(|buffers[i + 1]|, c.tx.free);
      }
      SafeWrites(w.chip, write, w.time, w.offset, rest);
      PutAllKeepsFree(c.tx.Put(offset, data), w.chip.tx.free, w.offset, rest);
    }
  }

  lemma {:induction false} KeepsDestination(c: Chip, write: Writer, t: nat, offset: u16, buffers: seq<Payload>)
    requires Stores(write)
    ensures var tx := WrittenBy(c, write, t, offset, buffers); tx.wr == c.tx.wr && tx.sent == c.tx.sent
    decreases |buffers|
  {
    if buffers != [] {
      var w := write(c, t, offset, buffers[0]);
      KeepsDestination(w.chip, write, w.time, w.offset, buffers[1..]);
    }
  }

  /** Where TX_WR stands after some writes. */
  lemma {:induction false} PutAllEnds(tx: Tx, offset: u16, chunks: seq<Payload>)
    requires chunks != []
    ensures PutAll(tx, offset, chunks).written == Wrap16(tx.wr + offset + |Concat(chunks)|)
    decreases |chunks|
  {
    var offset' := Wrap16(offset + |chunks[0]|);
    if |chunks| == 1 {
      EndOfPut(tx.wr, offset, |chunks[0]|);
      assert chunks[1..] == [];
    } else {
      PutAllEnds(tx.Put(offset, chunks[0]), offset', chunks[1..]);
      EndOfRest(tx.wr, offset, |chunks[0]|, |Concat(chunks[1..])|);
    }
  }

  lemma EndOfPut(wr: int, offset: int, n: int)
    ensures Wrap16(Wrap16(wr + offset) + n) == Wrap16(wr + offset + n)
  {
  }

  lemma EndOfRest(wr: int, offset: int, m: int, n: int)
    ensures Wrap16(wr + Wrap16(offset + m) + n) == Wrap16(wr + offset + (m + n))
  {
    WrapOfSum(wr + n, offset + m);
  }

  // ----- Below 256 free bytes -----

  /** `e` happens right after access number `at`, and nothing else ever does. */
  ghost predicate OnlyAt(script: Script, at: nat, e: Event) {
    forall i: nat :: script(i) == if i == at then [e] else []
  }

  lemma {:induction false} AfterOnly(c: Chip, script: Script, at: nat, e: Event, t: nat, k: nat)
    requires OnlyAt(script, at, e) && t <= at
    ensures After(c, script, t, k) == if t + k <= at then c else c.Happen(e)
    decreases k
  {
    if k > 0 {
      AfterOnly(c, script, at, e, t, k - 1);
      var before := After(c, script, t, k - 1);
      assert before.HappenAll([]) == before;
      assert [e][1..] == [] && before.HappenAll([e]) == before.Happen(e).HappenAll([]);
      assert before.Happen(e).HappenAll([]) == before.Happen(e);
    }
  }

  /** How long one reading of a free size at rest takes. */
  function Pause(free: u16): nat { Turn(Holding(free)) + 1 }

  /** Empty writes that end by access `at` change neither the free size nor the committed
      pointer; the first other write, begun then, takes 256 bytes and raises the free size
      to 256. */
  ghost predicate Tears(write: Writer, at: nat, free: nat) {
    && free < 0x100
    && (forall c: Chip, t: nat, offset: u16 :: c.tx.free == free && t + Pause(free) <= at ==>
          var w := write(c, t, offset, []);
          && w.chip.tx.free == free && w.chip.tx.wr == c.tx.wr
          && w.time == t + Pause(free) && w.offset == offset)
    && (forall c: Chip, offset: u16, data: Payload :: c.tx.free == free && data != [] ==>
          var w := write(c, at, offset, data);
          && w.chip.tx.free == 0x100 && w.chip.tx.wr == c.tx.wr
          && w.chip.tx.written == Wrap16(c.tx.wr + offset + 0x100) && w.offset == Wrap16(offset + 0x100))
  }

  /** The chip does so by raising the free size to 256 right after access `at`. */
  lemma DriverTears(script: Script, beyond: nat -> byte, at: nat, free: Size)
    requires free < 0x100 && OnlyAt(script, at, Drained(0x100 - free))
    ensures Tears(Driver(script, beyond), at, free)
  {
    forall c: Chip, t: nat, offset: u16 | c.tx.free == free && t + Pause(free) <= at
      ensures var w := DriverWrite(c, script, t, offset, [], beyond);
        && w.chip.tx.free == free && w.chip.tx.wr == c.tx.wr
        && w.time == t + Pause(free) && w.offset == offset
    {
      QuietWrite(c, script, at, t, offset, beyond);
    }
    forall c: Chip, offset: u16, data: Payload | c.tx.free == free && data != []
      ensures var w := DriverWrite(c, script, at, offset, data, beyond);
        && w.chip.tx.free == 0x100 && w.chip.tx.wr == c.tx.wr
        && w.chip.tx.written == Wrap16(c.tx.wr + offset + 0x100) && w.offset == Wrap16(offset + 0x100)
    {
      TornWrite(c, script, at, offset, data, beyond);
    }
  }

  lemma QuietWrite(c: Chip, script: Script, at: nat, t: nat, offset: u16, beyond: nat -> byte)
    requires c.tx.free < 0x100 && OnlyAt(script, at, Drained(0x100 - c.tx.free)) && t + Pause(c.tx.free) <= at
    ensures var w := DriverWrite(c, script, t, offset, [], beyond);
      && w.chip.tx.free == c.tx.free && w.chip.tx.wr == c.tx.wr
      && w.time == t + Pause(c.tx.free) && w.offset == offset
  {
    QuietReading(c, script, at, t);
    AfterOnly(c, script, at, Drained(0x100 - c.tx.free), t, Pause(c.tx.free));
  }

  /** Reading for an empty chunk with nothing freed meanwhile. */
  lemma QuietReading(c: Chip, script: Script, at: nat, t: nat)
    requires c.tx.free < 0x100 && OnlyAt(script, at, Drained(0x100 - c.tx.free)) && t + Pause(c.tx.free) <= at
    ensures Taken(c, script, t, 0) == 0 && TakenIn(c, script, t, 0) == Pause(c.tx.free)
  {
    var f, reg := Holding(c.tx.free), FreeSize(c, script, t);
    SizesRise(c, script, t);
    forall i: nat | i <= Turn(f) ensures At(reg, i) == f {
      AfterOnly(c, script, at, Drained(0x100 - c.tx.free), t, i);
    }
    FirstReading(reg, f);
  }

  lemma TornWrite(c: Chip, script: Script, at: nat, offset: u16, data: Payload, beyond: nat -> byte)
    requires data != [] && c.tx.free < 0x100 && OnlyAt(script, at, Drained(0x100 - c.tx.free))
    ensures var w := DriverWrite(c, script, at, offset, data, beyond);
      && w.chip.tx.free == 0x100 && w.chip.tx.wr == c.tx.wr
      && w.chip.tx.written == Wrap16(c.tx.wr + offset + 0x100) && w.offset == Wrap16(offset + 0x100)
  {
    TornReading(c, script, at, |data|);
    TornAfter(c, script, at, offset, data, beyond, TakenIn(c, script, at, |data|));
  }

  lemma TornAfter(c: Chip, script: Script, at: nat, offset: u16, data: Payload, beyond: nat -> byte, k: nat)
    requires k > 0 && c.tx.free < 0x100 && OnlyAt(script, at, Drained(0x100 - c.tx.free))
    ensures var w := WriteOf(c, script, at, offset, data, beyond, 0x100, k);
      && w.chip.tx.free == 0x100 && w.chip.tx.wr == c.tx.wr
      && w.chip.tx.written == Wrap16(c.tx.wr + offset + 0x100) && w.offset == Wrap16(offset + 0x100)
  {
    AfterOnly(c, script, at, Drained(0x100 - c.tx.free), at, k);
    EndOfPut(c.tx.wr, offset, 0x100);
  }

  /** Reading for something, torn by the chip's raising the free size to 256. */
  lemma TornReading(c: Chip, script: Script, t: nat, len: u16)
    requires 0 < len && c.tx.free < 0x100
    requires OnlyAt(script, t, Drained(0x100 - c.tx.free))
    ensures Taken(c, script, t, len) == 0x100 && TakenIn(c, script, t, len) > 0
  {
    var e, f, reg := Drained(0x100 - c.tx.free), Holding(c.tx.free), FreeSize(c, script, t);
    HoldingHigh(c.tx.free);
    ValueOrder(Holding(0x100), Register(1, 0));
    forall k: nat ensures At(reg, k) == if k <= 0 then f else Register(1, 0) {
      AfterOnly(c, script, t, e, t, k);
    }
    TornChunk(len, reg, f);
    EndsLater(len, reg);
  }

  lemma EndsLater(len: u16, reg: History)
    requires Rising(reg, 0)
    ensures ChunkEnd(len, reg, 0) > 0
  {
    StableResult(reg, 0, ZERO);
    RisesLater(reg, 0, Stable(reg, 0, ZERO).at);
    StableResult(reg, Stable(reg, 0, ZERO).at, ZERO);
  }

  /** When the first write that is not empty begins, if nothing happens before. */
  function FirstWrite(t: nat, pause: nat, buffers: seq<Payload>): nat
    requires Concat(buffers) != []
    decreases |buffers|
  {
    if buffers[0] != [] then t else FirstWrite(t + pause, pause, buffers[1..])
  }

  lemma {:induction false} FirstWriteIsLater(t: nat, pause: nat, buffers: seq<Payload>)
    requires Concat(buffers) != []
    ensures t <= FirstWrite(t, pause, buffers)
    decreases |buffers|
  {
    if buffers[0] == [] { FirstWriteIsLater(t + pause, pause, buffers[1..]); }
  }

  /** If the first write that is not empty is torn, a packet that fits comes out with
      another length. */
  lemma {:induction false} Spoiled(c: Chip, write: Writer, at: nat, t: nat, offset: u16, buffers: seq<Payload>)
    returns (n: nat)
    requires 0 < |Concat(buffers)| <= c.tx.free && Tears(write, at, c.tx.free) && Stores(write)
    requires at == FirstWrite(t, Pause(c.tx.free), buffers)
    ensures WrittenBy(c, write, t, offset, buffers).written == Wrap16(c.tx.wr + offset + n)
    ensures n < 0x200 && n != |Concat(buffers)|
    decreases |buffers|
  {
    var w := write(c, t, offset, buffers[0]);
    if buffers[0] != [] {
      n := 0x100 + |Concat(buffers[1..])|;
      SpoiledRest(w.chip, write, w.time, offset, c.tx.free, buffers);
    } else {
      FirstWriteIsLater(t + Pause(c.tx.free), Pause(c.tx.free), buffers[1..]);
      n := Spoiled(w.chip, write, at, w.time, offset, buffers[1..]);
    }
  }

  /** The writes behind the torn one. */
  lemma SpoiledRest(c: Chip, write: Writer, t: nat, offset: u16, free: nat, buffers: seq<Payload>)
    requires Stores(write) && buffers != [] && |Concat(buffers)| <= free < 0x100 == c.tx.free
    requires c.tx.written == Wrap16(c.tx.wr + offset + 0x100)
    ensures WrittenBy(c, write, t, Wrap16(offset + 0x100), buffers[1..]).written ==
      Wrap16(c.tx.wr + offset + (0x100 + |Concat(buffers[1..])|))
  {
    var rest, offset' := buffers[1..], Wrap16(offset + 0x100);
    RestIsSafe(buffers);
    SafeWrites(c, write, t, offset', rest);
    EndOfRest(c.tx.wr, offset, 0x100, |Concat(rest)|);
    if rest == [] {
      assert WrittenBy(c, write, t, offset', rest) == c.tx && |Concat(rest)| == 0;
    } else {
      PutAllEnds(c.tx, offset', rest);
    }
  }

  lemma RestIsSafe(buffers: seq<Payload>)
    requires buffers != [] && |Concat(buffers)| < 0x100
    ensures AllSafe(buffers[1..], 0x100)
  {
    forall i | 0 <= i < |buffers[1..]| ensures Safe(|buffers[1..][i]|, 0x100) {
      ConcatHolds(buffers, i + 1);
    }
  }

  lemma SentLength(tx: Tx, n: nat)
    requires tx.written == Wrap16(tx.wr + n) && n < 0x1_0000
    ensures var sent := tx.Send().sent;
      |sent| == |tx.sent| + 1 && |sent[|tx.sent|].payload| == n
  {
    WrapOfDistance(tx.wr, n);
  }

  // ----- The packet that leaves -----

  ghost predicate LeavesAsWritten(c: Chip, write: Writer, t: nat, buffers: seq<Payload>)
    requires |Concat(buffers)| < 0x1_0000
  {
    WrittenBy(c, write, t, 0, buffers).Send().sent == c.tx.sent + [Datagram(c.tx.ip, c.tx.port, Concat(buffers))]
  }

  /** At least one write, and what is written fits `free` bytes and is nothing, or
      `free` cannot be torn. */
  ghost predicate Certain(buffers: seq<Payload>, free: u16) {
    buffers != [] && |Concat(buffers)| <= free && (Concat(buffers) == [] || 0x100 <= free)
  }

  lemma LeavesIfCertain(c: Chip, write: Writer, t: nat, buffers: seq<Payload>)
    requires Certain(buffers, c.tx.free) && Stores(write)
    ensures LeavesAsWritten(c, write, t, buffers)
  {
    forall i | 0 <= i < |buffers| ensures Safe(|buffers[i]|, c.tx.free) {
      ConcatHolds(buffers, i);
    }
    SafeWrites(c, write, t, 0, buffers);
    SentAsWrittenIff(c.tx, buffers);
    SendIgnoresFree(PutAll(c.tx, 0, buffers), WrittenBy(c, write, t, 0, buffers).free);
  }

  lemma SpoiledIsSent(c: Chip, write: Writer, t: nat, buffers: seq<Payload>)
    requires 0 < |Concat(buffers)| <= c.tx.free
    requires Tears(write, FirstWrite(t, Pause(c.tx.free), buffers), c.tx.free) && Stores(write)
    ensures !LeavesAsWritten(c, write, t, buffers)
  {
    var n := Spoiled(c, write, FirstWrite(t, Pause(c.tx.free), buffers), t, 0, buffers);
    KeepsDestination(c, write, t, 0, buffers);
    SentLength(WrittenBy(c, write, t, 0, buffers), n);
  }

  lemma SpoiledByScript(c: Chip, t: nat, buffers: seq<Payload>, beyond: nat -> byte) returns (script: Script)
    requires 0 < |Concat(buffers)| <= c.tx.free < 0x100
    ensures !LeavesAsWritten(c, Driver(script, beyond), t, buffers)
  {
    var at, e := FirstWrite(t, Pause(c.tx.free), buffers), Drained(0x100 - c.tx.free);
    script := (i: nat) => if i == at then [e] else [];
    DriverStores(script, beyond);
    DriverTears(script, beyond, at, c.tx.free);
    SpoiledIsSent(c, Driver(script, beyond), t, buffers);
  }

  /** A packet that fits the free space leaves as written under every script exactly if
      there is nothing in it or at least 256 bytes are free. */
  lemma PacketIsSentIff(c: Chip, t: nat, buffers: seq<Payload>, beyond: nat -> byte)
    requires buffers != [] && |Concat(buffers)| <= c.tx.free
    ensures (forall script: Script :: LeavesAsWritten(c, Driver(script, beyond), t, buffers)) <==>
      Concat(buffers) == [] || 0x100 <= c.tx.free
  {
    if Certain(buffers, c.tx.free) {
      forall script: Script ensures LeavesAsWritten(c, Driver(script, beyond), t, buffers) {
        DriverStores(script, beyond);
        LeavesIfCertain(c, Driver(script, beyond), t, buffers);
      }
    } else {
      var script := SpoiledByScript(c, t, buffers, beyond);
    }
  }
}
