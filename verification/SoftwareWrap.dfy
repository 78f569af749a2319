/** The W5100 and W5200 drivers wrap the ring in software: every copy is split at
    the end of the socket's window in one flat 64 KB address space. */
module SoftwareWrap {
  import opened Words
  import opened Ring

  datatype Chip = W5100 | W5200 {
    function Sockets(): nat { if W5100? then 4 else 8 }
    function TxBase(): u16 { if W5100? then 0x4000 else 0x8000 }
    function RxBase(): u16 { if W5100? then 0x6000 else 0xC000 }
  }

  class Driver {
    const chip: Chip
    const memory: array<byte>
    const sbase: array<u16>
    const rbase: array<u16>
    /** TX_WR as it reads back, TX_WR as last written, and RX_RD. */
    var txWr: seq<u16>
    var txWritten: seq<u16>
    var rxRd: seq<u16>

    ghost predicate Valid()
      reads this, sbase, rbase
    {
      && memory.Length == 0x1_0000
      && sbase.Length == rbase.Length == chip.Sockets()
      && sbase != rbase
      && |txWr| == |txWritten| == |rxRd| == chip.Sockets()
      && (forall i :: 0 <= i < chip.Sockets() ==>
            sbase[i] == chip.TxBase() + 2048 * i && rbase[i] == chip.RxBase() + 2048 * i)
    }

    constructor (chip: Chip)
      ensures Valid() && this.chip == chip
      ensures fresh(memory) && fresh(sbase) && fresh(rbase)
    {
      this.chip := chip;
      memory := new byte[0x1_0000];
      sbase := new u16[chip.Sockets()];
      rbase := new u16[chip.Sockets()];
      txWr := seq(chip.Sockets(), _ => 0);
      txWritten := seq(chip.Sockets(), _ => 0);
      rxRd := seq(chip.Sockets(), _ => 0);
      new;
      for i := 0 to chip.Sockets()
        modifies sbase, rbase
        invariant forall k :: 0 <= k < i ==>
          sbase[k] == chip.TxBase() + 2048 * k && rbase[k] == chip.RxBase() + 2048 * k
      {
        sbase[i] := Wrap16(chip.TxBase() + 2048 * i);
        rbase[i] := Wrap16(chip.RxBase() + 2048 * i);
      }
    }

    /** The 2 KB of the address space that belong to a socket. */
    ghost function Window(base: u16): Mem
      reads this, memory
      requires memory.Length == 0x1_0000 && base + 2048 <= 0x1_0000
    {
      memory[base..base + 2048]
    }

    /** A burst: the chip, or the driver, counts the address up byte by byte. */
    method BurstWrite(addr: u16, buf: seq<byte>)
      requires memory.Length == 0x1_0000
      requires addr + |buf| <= 0x1_0000
      modifies memory
      ensures forall a :: 0 <= a < 0x1_0000 ==>
        memory[a] == if addr <= a < addr + |buf| then buf[a - addr] else old(memory[a])
    {
      for i := 0 to |buf|
        invariant forall a :: 0 <= a < 0x1_0000 ==>
          memory[a] == if addr <= a < addr + i then buf[a - addr] else old(memory[a])
      {
        memory[Wrap16(addr + i)] := buf[i];
      }
    }

    method BurstRead(addr: u16, len: u16) returns (buf: seq<byte>)
      requires memory.Length == 0x1_0000
      requires addr + len <= 0x1_0000
      ensures |buf| == len && forall i :: 0 <= i < len ==> buf[i] == memory[addr + i]
    {
      buf := [];
      for i := 0 to len
        invariant |buf| == i && forall k :: 0 <= k < i ==> buf[k] == memory[addr + k]
      {
        buf := buf + [memory[Wrap16(addr + i)]];
      }
    }

    /** The copy itself, in two pieces if the window's end is in the way. */
    method Store(base: u16, offset: u16, dstAddr: u16, data: seq<byte>)
      requires memory.Length == 0x1_0000
      requires base + 2048 <= 0x1_0000 && offset < 2048 && |data| <= 2048
      requires dstAddr == base + offset
      modifies memory
      ensures Stored(old(memory[..]), memory[..], base, offset, data)
    {
      if Wrap16(offset + |data|) > 2048 {
        var size := 2048 - offset;
        BurstWrite(dstAddr, data[..size]);
        BurstWrite(base, data[size..]);
      } else {
        BurstWrite(dstAddr, data);
      }
    }

    /** The two-piece copy is the per-byte copy modulo 2048, leaves TX_WR pointing
        behind the data, and stays inside the socket's own window. */
    method SendDataProcessingOffset(s: nat, dataOffset: u16, data: seq<byte>)
      requires Valid() && s < chip.Sockets() && |data| <= 2048
      modifies memory, this`txWritten
      ensures Valid()
      ensures var ptr := Wrap16(txWr[s] + dataOffset);
        && Window(sbase[s]) == Write(old(Window(sbase[s])), ptr, data)
        && txWritten == old(txWritten)[s := Wrap16(ptr + |data|)]
      ensures forall a :: 0 <= a < 0x1_0000 && !(sbase[s] <= a < sbase[s] + 2048) ==>
        memory[a] == old(memory[a])
    {
      var ptr := Wrap16(txWr[s] + dataOffset);
      var offset := ptr % 2048;
      var dstAddr := Wrap16(offset + sbase[s]);
      ghost var before := memory[..];
      Store(sbase[s], offset, dstAddr, data);
      StoredIsWrite(before, memory[..], sbase[s], ptr, data);
      ptr := Wrap16(ptr + |data|);
      txWritten := txWritten[s := ptr];
    }

    /** Reading is the mirror image. */
    method Load(base: u16, srcMask: u16, srcPtr: u16, len: u16) returns (dst: seq<byte>)
      requires memory.Length == 0x1_0000
      requires base + 2048 <= 0x1_0000 && srcMask < 2048 && len <= 2048
      requires srcPtr == base + srcMask
      ensures |dst| == len && Loaded(memory[..], base, srcMask, dst)
    {
      if Wrap16(srcMask + len) > 2048 {
        var size := 2048 - srcMask;
        dst := BurstRead(srcPtr, size);
        var rest := BurstRead(base, len - size);
        dst := dst + rest;
      } else {
        dst := BurstRead(srcPtr, len);
      }
    }

    method ReadData(s: nat, src: u16, len: u16) returns (dst: seq<byte>)
      requires Valid() && s < chip.Sockets() && len <= 2048
      ensures dst == Read(Window(rbase[s]), src, len)
    {
      var srcMask := src % 2048;
      var srcPtr := Wrap16(rbase[s] + srcMask);
      dst := Load(rbase[s], srcMask, srcPtr, len);
      LoadedIsRead(memory[..], rbase[s], src, dst);
    }

    method RecvDataProcessing(s: nat, len: u16, peek: bool) returns (data: seq<byte>)
      requires Valid() && s < chip.Sockets() && len <= 2048
      modifies this`rxRd
      ensures Valid()
      ensures data == Read(Window(rbase[s]), old(rxRd[s]), len)
      ensures rxRd == if peek then old(rxRd) else old(rxRd)[s := Wrap16(old(rxRd[s]) + len)]
    {
      var ptr := rxRd[s];
      data := ReadData(s, ptr, len);
      if !peek {
        ptr := Wrap16(ptr + len);
        rxRd := rxRd[s := ptr];
      }
    }
  }

  /** Byte `j` of the window after a transfer, told from the offset in the ring. */
  function Split(offset: nat, j: nat): (k: nat)
    requires offset < 2048 && j < 2048
  {
    if j >= offset then j - offset else j + 2048 - offset
  }

  lemma WriteSplit(mem: Mem, ptr: nat, data: seq<byte>)
    requires |data| <= 2048
    ensures forall j :: 0 <= j < 2048 ==>
      var k := Split(ptr % 2048, j);
      Write(mem, ptr, data)[j] == if k < |data| then data[k] else mem[j]
  {
    forall j | 0 <= j < 2048
      ensures var k := Split(ptr % 2048, j);
        Write(mem, ptr, data)[j] == if k < |data| then data[k] else mem[j]
    {
      WriteAt(mem, ptr, data, j);
      AheadSplit(ptr, j);
      if Ahead(ptr, j) < |data| { OnlyHit(|data|, Ahead(ptr, j)); }
    }
  }

  /** One copy of the address space differs from the other by a split transfer. */
  ghost predicate Stored(before: seq<byte>, after: seq<byte>, base: nat, offset: nat, data: seq<byte>)
    requires |before| == |after| == 0x1_0000 && offset < 2048
  {
    forall a :: 0 <= a < 0x1_0000 ==>
      after[a] ==
        if base <= a < base + 2048 && Split(offset, a - base) < |data| then data[Split(offset, a - base)]
        else before[a]
  }

  lemma StoredIsWrite(before: seq<byte>, after: seq<byte>, base: nat, ptr: nat, data: seq<byte>)
    requires |before| == |after| == 0x1_0000 && base + 2048 <= 0x1_0000 && |data| <= 2048
    requires Stored(before, after, base, ptr % 2048, data)
    ensures after[base..base + 2048] == Write(before[base..base + 2048], ptr, data)
  {
    WriteSplit(before[base..base + 2048], ptr, data);
    var was, now := before[base..base + 2048], after[base..base + 2048];
    forall j | 0 <= j < 2048 ensures now[j] == Write(was, ptr, data)[j] {
      assert now[j] == after[base + j];
    }
  }

  /** A read assembled from at most two pieces. */
  ghost predicate Loaded(m: seq<byte>, base: nat, offset: nat, dst: seq<byte>)
    requires |m| == 0x1_0000 && base + 2048 <= 0x1_0000 && offset < 2048 && |dst| <= 2048
  {
    forall i :: 0 <= i < |dst| ==> dst[i] == m[base + (if offset + i < 2048 then offset + i else offset + i - 2048)]
  }

  lemma LoadedIsRead(m: seq<byte>, base: nat, ptr: nat, dst: seq<byte>)
    requires |m| == 0x1_0000 && base + 2048 <= 0x1_0000 && |dst| <= 2048
    requires Loaded(m, base, ptr % 2048, dst)
    ensures dst == Read(m[base..base + 2048], ptr, |dst|)
  {
    forall i | 0 <= i < |dst| ensures dst[i] == Read(m[base..base + 2048], ptr, |dst|)[i] {
      assert Slot(ptr, i) == if ptr % 2048 + i < 2048 then ptr % 2048 + i else ptr % 2048 + i - 2048;
    }
  }

  lemma OnlyHit(len: nat, k: nat)
    requires k < len <= 2048
    ensures LastHit(len, k) == k
  {
    var turns := LastHitIsWholeTurnsAway(len, k);
  }

  lemma AheadSplit(ptr: nat, j: nat)
    requires j < 2048
    ensures Ahead(ptr, j) == Split(ptr % 2048, j)
  {
  }

  /** No two socket windows overlap, none reaches past the address space, and the
      last W5200 receive window ends at its very top. */
  lemma WindowsAreDisjoint(chip: Chip, i: nat, j: nat)
    requires i < chip.Sockets() && j < chip.Sockets()
    ensures i != j ==>
      var tx := (n: nat) => chip.TxBase() + 2048 * n;
      var rx := (n: nat) => chip.RxBase() + 2048 * n;
      && (tx(i) + 2048 <= tx(j) || tx(j) + 2048 <= tx(i))
      && (rx(i) + 2048 <= rx(j) || rx(j) + 2048 <= rx(i))
    ensures chip.TxBase() + 2048 * i + 2048 <= chip.RxBase()
    ensures chip.RxBase() + 2048 * j + 2048 <= 0x1_0000
    ensures chip.RxBase() + 2048 * j + 2048 == 0x1_0000 <==> chip.W5200? && j == 7
  {
  }
}
