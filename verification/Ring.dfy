/** A socket's 2 KB ring as the hardware addresses it: byte `i` of a transfer at
    pointer `ptr` lives at offset `(ptr + i) mod 2048`. */
module Ring {
  import opened Words

  type Mem = s: seq<byte> | |s| == 2048 witness seq(2048, _ => 0)

  /** Where byte `i` of a transfer at `ptr` lives. */
  function Slot(ptr: nat, i: nat): (j: nat)
    ensures j < 2048
  {
    (ptr + i) % 2048
  }

  function Read(mem: Mem, ptr: nat, len: nat): (s: seq<byte>)
    ensures |s| == len
  {
    seq(len, i requires 0 <= i < len => mem[Slot(ptr, i)])
  }

  /** The per-byte copy, in order: a later byte overwrites an earlier one. */
  function Write(mem: Mem, ptr: nat, data: seq<byte>): Mem
    decreases |data|
  {
    if data == [] then mem
    else
      var n := |data| - 1;
      Write(mem, ptr, data[..n])[Slot(ptr, n) := data[n]]
  }

  /** Distance from `ptr` forward to ring offset `j`. */
  function Ahead(ptr: nat, j: nat): (k: nat)
    ensures k < 2048
  {
    (j - ptr) % 2048
  }

  lemma AheadOfSlot(ptr: nat, i: nat, j: nat)
    requires j < 2048
    ensures Slot(ptr, i) == j <==> i % 2048 == Ahead(ptr, j)
  {
  }

  /** The last byte of a transfer of `len` bytes that falls on the same offset as
      byte `k`. */
  function LastHit(len: nat, k: nat): (i: nat)
    requires k < len && k < 2048
    ensures k <= i < len
    decreases len
  {
    if (len - 1) % 2048 == k then len - 1 else LastHit(len - 1, k)
  }

  /** Where ring offset `j` got its content from: the last byte of the transfer
      that falls on it, or the old memory. */
  lemma {:induction false} WriteAt(mem: Mem, ptr: nat, data: seq<byte>, j: nat)
    requires j < 2048
    ensures var k := Ahead(ptr, j);
      Write(mem, ptr, data)[j] == if k < |data| then data[LastHit(|data|, k)] else mem[j]
    decreases |data|
  {
    if data != [] {
      WriteAt(mem, ptr, data[..|data| - 1], j);
      AheadOfSlot(ptr, |data| - 1, j);
    }
  }

  /** The same for byte `j` of a stretch of the ring that begins at `base`. */
  lemma WriteSeenFrom(mem: Mem, ptr: nat, data: seq<byte>, base: nat, n: nat, j: nat, k: nat)
    requires j < n && k == Ahead(ptr, Slot(base, j))
    ensures Read(Write(mem, ptr, data), base, n)[j] ==
      if k < |data| then data[LastHit(|data|, k)] else Read(mem, base, n)[j]
  {
    WriteAt(mem, ptr, data, Slot(base, j));
  }

  /** `ptr` itself may have wrapped: only its residue matters. */
  lemma SlotWraps(ptr: nat)
    ensures forall i: nat :: Slot(ptr % 0x1_0000, i) == Slot(ptr, i)
  {
    assert ptr == ptr % 0x1_0000 + 32 * 2048 * (ptr / 0x1_0000);
  }

  lemma ReadWraps(mem: Mem, ptr: nat, len: nat)
    ensures Read(mem, ptr % 0x1_0000, len) == Read(mem, ptr, len)
  {
    SlotWraps(ptr);
  }

  lemma {:induction false} WriteWraps(mem: Mem, ptr: nat, data: seq<byte>)
    ensures Write(mem, ptr % 0x1_0000, data) == Write(mem, ptr, data)
    decreases |data|
  {
    SlotWraps(ptr);
    if data != [] { WriteWraps(mem, ptr, data[..|data| - 1]); }
  }

  /** Writes made back to back are one write. */
  lemma {:induction false} WriteConcat(mem: Mem, ptr: nat, a: seq<byte>, b: seq<byte>)
    ensures Write(Write(mem, ptr, a), ptr + |a|, b) == Write(mem, ptr, a + b)
    decreases |b|
  {
    if b == [] {
      assert a + b == a;
    } else {
      assert (a + b)[..|a + b| - 1] == a + b[..|b| - 1];
      WriteConcat(mem, ptr, a, b[..|b| - 1]);
    }
  }

  lemma ReadConcat(mem: Mem, ptr: nat, m: nat, n: nat)
    ensures Read(mem, ptr, m + n) == Read(mem, ptr, m) + Read(mem, ptr + m, n)
  {
  }

  /** What a transfer of any length leaves behind: with more than 2048 bytes the
      tail has overwritten the head. */
  function Overlaid(data: seq<byte>): (s: seq<byte>)
    ensures |s| == |data|
  {
    seq(|data|, i requires 0 <= i < |data| => data[LastHit(|data|, i % 2048)])
  }

  lemma ReadBack(mem: Mem, ptr: nat, data: seq<byte>)
    ensures Read(Write(mem, ptr, data), ptr, |data|) == Overlaid(data)
  {
    forall i | 0 <= i < |data|
      ensures Read(Write(mem, ptr, data), ptr, |data|)[i] == Overlaid(data)[i]
    {
      WriteAt(mem, ptr, data, Slot(ptr, i));
      AheadOfSlot(ptr, i, Slot(ptr, i));
    }
  }

  lemma {:induction false} LastHitIsWholeTurnsAway(len: nat, k: nat) returns (turns: nat)
    requires k < len && k < 2048
    ensures LastHit(len, k) == k + turns * 2048
    decreases len
  {
    if (len - 1) % 2048 == k {
      turns := (len - 1) / 2048;
    } else {
      turns := LastHitIsWholeTurnsAway(len - 1, k);
    }
  }

  /** A transfer survives intact exactly when it fits the ring, or when the part
      that overwrites repeats what was there. */
  lemma IntactIff(data: seq<byte>)
    ensures Overlaid(data) == data <==>
      forall i :: 0 <= i && i + 2048 < |data| ==> data[i] == data[i + 2048]
  {
    if forall i :: 0 <= i && i + 2048 < |data| ==> data[i] == data[i + 2048] {
      forall i | 0 <= i < |data| ensures Overlaid(data)[i] == data[i] {
        var turns := LastHitIsWholeTurnsAway(|data|, i % 2048);
        Periodic(data, i % 2048, turns);
        Periodic(data, i % 2048, i / 2048);
      }
    }
    if Overlaid(data) == data {
      forall i | 0 <= i && i + 2048 < |data| ensures data[i] == data[i + 2048] {
        assert (i + 2048) % 2048 == i % 2048;
        assert data[i] == Overlaid(data)[i] && data[i + 2048] == Overlaid(data)[i + 2048];
      }
    }
  }

  lemma {:induction false} Periodic(data: seq<byte>, i: nat, turns: nat)
    requires i + turns * 2048 < |data|
    requires forall i :: 0 <= i && i + 2048 < |data| ==> data[i] == data[i + 2048]
    ensures data[i] == data[i + turns * 2048]
  {
    if turns > 0 {
      Periodic(data, i, turns - 1);
      assert (i + (turns - 1) * 2048) + 2048 == i + turns * 2048;
    }
  }

  lemma AheadOfEarlier(ptr: nat, n: nat, i: nat)
    requires i < n <= 2048
    ensures Ahead(ptr + n, Slot(ptr, i)) == 2048 - n + i
  {
  }

  /** A transfer that starts behind `n` stored bytes and fits leaves them alone. */
  lemma WriteSpares(mem: Mem, ptr: nat, n: nat, data: seq<byte>)
    requires n + |data| <= 2048
    ensures Read(Write(mem, ptr + n, data), ptr, n) == Read(mem, ptr, n)
  {
    var mem' := Write(mem, ptr + n, data);
    forall i | 0 <= i < n ensures Read(mem', ptr, n)[i] == Read(mem, ptr, n)[i] {
      AheadOfEarlier(ptr, n, i);
      WriteAt(mem, ptr + n, data, Slot(ptr, i));
    }
  }

  lemma WriteBehind(mem: Mem, ptr: nat, n: nat, data: seq<byte>)
    requires n + |data| <= 2048
    ensures Read(Write(mem, ptr + n, data), ptr, n) == Read(mem, ptr, n)
    ensures Read(Write(mem, ptr + n, data), ptr, n + |data|) == Read(mem, ptr, n) + data
  {
    WriteSpares(mem, ptr, n, data);
    ReadConcat(Write(mem, ptr + n, data), ptr, n, |data|);
    ReadBack(mem, ptr + n, data);
    IntactIff(data);
  }
}
