/** Reading a 16-bit size register one byte at a time while the chip changes it:
    `getTXFreeSize` and `getRXReceivedSize` of the three drivers, and the use
    `bufferData` makes of the result. */
module SizeRegister {
  import opened Words

  /** The register is two byte registers. */
  datatype Register = Register(hi: byte, lo: byte) {
    function Value(): u16 { Join(hi, lo) }

    predicate Below(r: Register) {
      hi < r.hi || (hi == r.hi && lo < r.lo)
    }

    predicate AtMost(r: Register) {
      this == r || Below(r)
    }
  }

  const ZERO: Register := Register(0, 0)

  /** The register that holds `x`. */
  function Holding(x: u16): (r: Register)
    ensures r.Value() == x
  {
    assert Join(Hi(x), Lo(x)) == x;
    var hi: byte, lo: byte :| Join(hi, lo) == x;
    Register(hi, lo)
  }

  /** The order of registers is the order of their values. */
  lemma ValueOrder(a: Register, b: Register)
    ensures a.AtMost(b) <==> a.Value() <= b.Value()
    ensures a == b <==> a.Value() == b.Value()
  {
  }

  /** What the register holds at each byte access. */
  type History = nat -> Register

  function At(reg: History, t: nat): Register { reg(t) }

  predicate Rises(reg: History, i: nat) { At(reg, i).AtMost(At(reg, i + 1)) }

  /** The chip only raises the register from access `t` on. */
  ghost predicate Rising(reg: History, t: nat) {
    forall i: nat :: t <= i ==> Rises(reg, i)
  }

  lemma {:induction false} RisesBetween(reg: History, i: nat, j: nat)
    requires Rising(reg, i) && i <= j
    ensures At(reg, i).AtMost(At(reg, j))
    decreases j - i
  {
    if i < j {
      assert Rises(reg, i);
      RisesBetween(reg, i + 1, j);
    }
  }

  ghost predicate Steady(reg: History, t: nat) {
    forall i: nat :: t <= i ==> At(reg, i) == At(reg, t)
  }

  /** High byte at access `t`, low byte at access `t + 1`. */
  function WordAt(reg: History, t: nat): Register {
    Register(At(reg, t).hi, At(reg, t + 1).lo)
  }

  /** One pass over the register: neither word exceeds it, equal words are a value it
      really held, and a pass that has to be repeated saw it change. */
  lemma Pass(reg: History, t: nat, val: Register)
    requires Rising(reg, t) && val.AtMost(At(reg, t))
    ensures Rising(reg, t + 2) && Rising(reg, t + 4)
    ensures At(reg, t).AtMost(At(reg, t + 1)) && At(reg, t + 1).AtMost(At(reg, t + 2))
    ensures At(reg, t + 2).AtMost(At(reg, t + 4))
    ensures WordAt(reg, t).AtMost(At(reg, t + 2)) && WordAt(reg, t + 2).AtMost(At(reg, t + 4))
    ensures WordAt(reg, t) == ZERO != val ==> At(reg, t).Below(At(reg, t + 2))
    ensures WordAt(reg, t) == WordAt(reg, t + 2) ==> At(reg, t + 1) == WordAt(reg, t)
    ensures WordAt(reg, t) != WordAt(reg, t + 2) ==> At(reg, t).Below(At(reg, t + 4))
  {
    var a, b, c, d, e := At(reg, t), At(reg, t + 1), At(reg, t + 2), At(reg, t + 3), At(reg, t + 4);
    assert Rises(reg, t) && Rises(reg, t + 1) && Rises(reg, t + 2) && Rises(reg, t + 3);
  }

  /** A value obtained and the access reached. */
  datatype Reading = Reading(value: Register, at: nat)

  /** The double-read loop: what it returns and the access it has reached,
      entered at access `t` with `val` left over from the previous pass. */
  ghost function Stable(reg: History, t: nat, val: Register): (r: Reading)
    requires Rising(reg, t) && val.AtMost(At(reg, t))
    decreases 0xFF - At(reg, t).hi, 0xFF - At(reg, t).lo
  {
    Pass(reg, t, val);
    var val1 := WordAt(reg, t);
    if val1 == ZERO then
      if val == ZERO then Reading(ZERO, t + 2) else Stable(reg, t + 2, val)
    else
      var val' := WordAt(reg, t + 2);
      if val' == val1 then Reading(val', t + 4) else Stable(reg, t + 4, val')
  }

  ghost predicate Held(reg: History, t: nat, t': nat, v: Register) {
    exists k :: t <= k < t' && At(reg, k) == v
  }

  /** The last two bytes read were both zero. */
  ghost predicate Torn(reg: History, t: nat, t': nat) {
    t + 2 <= t' && At(reg, t' - 2).hi == 0 && At(reg, t' - 1).lo == 0
  }

  /** A torn zero of a register at rest is a true zero. */
  lemma TornAtRest(reg: History, t': nat, x: u16)
    requires Torn(reg, 0, t') && At(reg, t' - 2) == At(reg, t' - 1) == Holding(x)
    ensures x == 0
  {
  }

  /** The value `v` handed out at access `t'` by a reading begun at access `t` never
      exceeds the register and was held during the call, or else is a torn zero. */
  ghost predicate Explained(reg: History, t: nat, v: Register, t': nat) {
    && t < t' && v.AtMost(At(reg, t'))
    && (if v == ZERO then Torn(reg, t, t') else Held(reg, t, t', v))
  }

  lemma {:induction false} StableResult(reg: History, t: nat, val: Register)
    requires Rising(reg, t) && val.AtMost(At(reg, t))
    ensures Explained(reg, t, Stable(reg, t, val).value, Stable(reg, t, val).at)
    decreases 0xFF - At(reg, t).hi, 0xFF - At(reg, t).lo
  {
    Pass(reg, t, val);
    if WordAt(reg, t) == ZERO {
      if val != ZERO { StableResult(reg, t + 2, val); }
    } else if WordAt(reg, t + 2) != WordAt(reg, t) {
      StableResult(reg, t + 4, WordAt(reg, t + 2));
    }
  }

  /** It ends after at most one pass more than the register's value changed. */
  lemma {:induction false} StableEnds(reg: History, t: nat, val: Register)
    requires Rising(reg, t) && val.AtMost(At(reg, t))
    ensures var t' := Stable(reg, t, val).at; t' <= t + 4 * (At(reg, t').Value() - At(reg, t).Value() + 1)
    decreases 0xFF - At(reg, t).hi, 0xFF - At(reg, t).lo
  {
    Pass(reg, t, val);
    if WordAt(reg, t) == ZERO {
      ValueOrder(At(reg, t), At(reg, t + 2));
      if val != ZERO { StableEnds(reg, t + 2, val); }
    } else {
      ValueOrder(At(reg, t), At(reg, t + 4));
      if WordAt(reg, t + 2) != WordAt(reg, t) { StableEnds(reg, t + 4, WordAt(reg, t + 2)); }
    }
  }

  lemma SteadyResult(reg: History, t: nat)
    requires Steady(reg, t)
    ensures Rising(reg, t) && Stable(reg, t, ZERO).value == At(reg, t)
  {
    assert At(reg, t + 1) == At(reg, t + 2) == At(reg, t + 3) == At(reg, t);
  }

  /** The 16-bit accessor: the two bytes joined by a shift and a sum.  A 16-bit
      variable of the driver is kept as its two bytes. */
  method ReadWord(reg: History, t: nat) returns (word: Register, next: nat)
    ensures word == WordAt(reg, t) && next == t + 2
  {
    var res: u16 := At(reg, t).hi;
    res := Wrap16(res * 0x100) + At(reg, t + 1).lo;
    ValueOrder(Holding(res), WordAt(reg, t));
    word, next := Holding(res), t + 2;
  }

  /** Going on from access `t` with `val` the loop returns `result`. */
  ghost predicate Going(reg: History, result: Reading, val: Register, t: nat) {
    Rising(reg, t) && val.AtMost(At(reg, t)) && Stable(reg, t, val) == result
  }

  /** The body of the loop. */
  method ReadTwice(reg: History, ghost result: Reading, previous: Register, t: nat)
    returns (val: Register, next: nat, again: bool)
    requires Going(reg, result, previous, t)
    ensures again ==> Going(reg, result, val, next) && At(reg, t).Below(At(reg, next))
    ensures !again ==> Reading(val, next) == result
  {
    Pass(reg, t, previous);
    var val1;
    val := previous;
    val1, next := ReadWord(reg, t);
    if val1 != ZERO {
      val, next := ReadWord(reg, next);
    }
    again := val != val1;
  }

  method ReadLoop(reg: History, t0: nat, ghost result: Reading) returns (val: Register, t: nat)
    requires Going(reg, result, ZERO, t0)
    ensures Reading(val, t) == result
  {
    var again := true;
    val, t := ZERO, t0;
    while true
      invariant Going(reg, result, val, t)
      decreases 0xFF - At(reg, t).hi, 0xFF - At(reg, t).lo
    {
      val, t, again := ReadTwice(reg, result, val, t);
      if !again { return; }
    }
  }

  /** The driver's loop. */
  method ReadStable(reg: History, t0: nat) returns (val: Register, t: nat)
    requires Rising(reg, t0)
    ensures Reading(val, t) == Stable(reg, t0, ZERO)
    ensures Explained(reg, t0, val, t)
    ensures t <= t0 + 4 * (At(reg, t).Value() - At(reg, t0).Value() + 1)
  {
    ValueOrder(ZERO, At(reg, t0));
    val, t := ReadLoop(reg, t0, Stable(reg, t0, ZERO));
    StableResult(reg, t0, ZERO);
    StableEnds(reg, t0, ZERO);
  }

  /** A high byte 0, and a low byte 0 at the next access, read as zero. */
  lemma TornRead(reg: History)
    requires Rising(reg, 0) && At(reg, 0).hi == 0 && At(reg, 1).lo == 0
    ensures Stable(reg, 0, ZERO) == Reading(ZERO, 2)
  {
    assert WordAt(reg, 0) == ZERO;
  }

  /** From 256 on nothing can be torn to zero: the result is at least the value
      the register had when the reading began. */
  lemma FreshEnough(reg: History, t: nat)
    requires Rising(reg, t) && At(reg, t).hi > 0
    ensures At(reg, t).AtMost(Stable(reg, t, ZERO).value) && Stable(reg, t, ZERO).value != ZERO
  {
    StableResult(reg, t, ZERO);
    var r := Stable(reg, t, ZERO);
    if Torn(reg, t, r.at) { RisesBetween(reg, t, r.at - 2); }
    var k :| t <= k < r.at && At(reg, k) == r.value;
    RisesBetween(reg, t, k);
  }

  /** A register that does not change during the reading is read exactly. */
  lemma UnchangedIsExact(reg: History, t: nat, v: Register, t': nat)
    requires Rising(reg, t) && Explained(reg, t, v, t') && At(reg, t) == At(reg, t')
    ensures v == At(reg, t)
  {
    forall k | t <= k <= t' ensures At(reg, k) == At(reg, t) {
      RisesBetween(reg, t, k);
      RisesLater(reg, t, k);
      RisesBetween(reg, k, t');
    }
    if v == ZERO {
      assert At(reg, t' - 2) == At(reg, t' - 1) == At(reg, t);
    }
  }

  lemma RisesLater(reg: History, t: nat, k: nat)
    requires Rising(reg, t) && t <= k
    ensures Rising(reg, k)
  {
  }

  // ----- What a reading may yield, from what the register holds before -----

  /** A register that holds `f` at first, and never more than `max`. */
  ghost predicate Possible(reg: History, f: u16, max: u16) {
    Rising(reg, 0) && At(reg, 0).Value() == f && forall i: nat :: AtOrBelow(reg, i, max)
  }

  ghost predicate AtOrBelow(reg: History, i: nat, max: u16) { At(reg, i).Value() <= max }

  /** It holds `f` up to access `j` and `g` from then on. */
  ghost predicate Jumps(reg: History, f: Register, g: Register, j: nat) {
    forall i: nat :: At(reg, i) == if i <= j then f else g
  }

  lemma JumpIsPossible(f: Register, g: Register, j: nat, max: u16) returns (reg: History)
    requires f.AtMost(g) && g.Value() <= max
    ensures Jumps(reg, f, g, j) && Possible(reg, f.Value(), max)
  {
    reg := i => if i <= j then f else g;
    ValueOrder(f, g);
    forall i: nat ensures Rises(reg, i) && AtOrBelow(reg, i, max) {
    }
  }

  lemma JumpRises(reg: History, f: Register, g: Register, j: nat)
    requires Jumps(reg, f, g, j) && f.AtMost(g)
    ensures Rising(reg, 0) && Steady(reg, j + 1)
  {
    forall i: nat ensures Rises(reg, i) {
    }
    forall i: nat | j + 1 <= i ensures At(reg, i) == At(reg, j + 1) {
    }
  }

  /** A zero can come back exactly from a register below 256 at the beginning: a false
      one exactly from 1 to 255. */
  lemma ZeroPossibleIff(f: u16, max: u16)
    requires f <= max && 0x100 <= max
    ensures (exists reg :: Possible(reg, f, max) && Stable(reg, 0, ZERO).value == ZERO) <==> f < 0x100
  {
    if f < 0x100 {
      var first := Register(0, f);
      var reg := JumpIsPossible(first, Register(1, 0), 0, max);
      TornRead(reg);
    } else {
      forall reg | Possible(reg, f, max) ensures Stable(reg, 0, ZERO).value != ZERO {
        FreshEnough(reg, 0);
      }
    }
  }

  /** `bufferData` reads the free size once to compare and, if the chunk is too
      long, a second time to truncate. */
  ghost function ChunkSize(len: u16, reg: History, t: nat): (size: u16)
    requires Rising(reg, t)
  {
    var first := Stable(reg, t, ZERO);
    StableResult(reg, t, ZERO);
    if len > first.value.Value() then Stable(reg, first.at, ZERO).value.Value() else len
  }

  /** The access at which the second of these readings, or the only one, has ended. */
  ghost function ChunkEnd(len: u16, reg: History, t: nat): nat
    requires Rising(reg, t)
  {
    var first := Stable(reg, t, ZERO);
    StableResult(reg, t, ZERO);
    if len > first.value.Value() then Stable(reg, first.at, ZERO).at else first.at
  }

  /** A chunk that fits is taken as asked if the register cannot be torn to zero; on a
      register at rest it is cut to the free size. */
  lemma ChunkFits(len: u16, reg: History, t: nat)
    requires Rising(reg, t) && len <= At(reg, t).Value() && At(reg, t).hi > 0
    ensures ChunkSize(len, reg, t) == len
  {
    FreshEnough(reg, t);
    ValueOrder(At(reg, t), Stable(reg, t, ZERO).value);
  }

  lemma ChunkAtRest(len: u16, reg: History, t: nat)
    requires Steady(reg, t)
    ensures Rising(reg, t) && ChunkSize(len, reg, t) == Min(len, At(reg, t).Value())
  {
    SteadyResult(reg, t);
    StableResult(reg, t, ZERO);
    var t1 := Stable(reg, t, ZERO).at;
    assert At(reg, t1) == At(reg, t) && Steady(reg, t1);
    SteadyResult(reg, t1);
  }

  /** Alone, a chunk always fits the free space; if that does not change meanwhile, the
      chunk is cut to it. */
  method BufferChunk(len: u16, reg: History, t0: nat) returns (ret: u16, t: nat)
    requires Rising(reg, t0)
    ensures ret == ChunkSize(len, reg, t0) && t == ChunkEnd(len, reg, t0) > t0
    ensures ret <= At(reg, t).Value()
    ensures At(reg, t) == At(reg, t0) ==> ret == Min(len, At(reg, t0).Value())
  {
    var free;
    free, t := ReadStable(reg, t0);
    ValueOrder(free, At(reg, t));
    if At(reg, t) == At(reg, t0) { UnchangedIsExact(reg, t0, free, t); }
    if len > free.Value() {
      ghost var t1 := t;
      RisesLater(reg, t0, t1);
      free, t := ReadStable(reg, t);
      ValueOrder(free, At(reg, t));
      if At(reg, t) == At(reg, t0) {
        BetweenEqual(reg, t0, t1, t);
        UnchangedIsExact(reg, t1, free, t);
      }
      ret := free.Value();
    } else {
      ret := len;
    }
  }

  lemma BetweenEqual(reg: History, i: nat, k: nat, j: nat)
    requires Rising(reg, i) && i <= k <= j && At(reg, i) == At(reg, j)
    ensures At(reg, k) == At(reg, i)
  {
    RisesBetween(reg, i, k);
    RisesLater(reg, i, k);
    RisesBetween(reg, k, j);
  }

  /** A torn first reading makes any chunk 256 bytes long. */
  lemma TornChunk(len: u16, reg: History, f: Register)
    requires f.hi == 0 && len > 0 && Jumps(reg, f, Register(1, 0), 0)
    ensures Rising(reg, 0) && ChunkSize(len, reg, 0) == 0x100
  {
    JumpRises(reg, f, Register(1, 0), 0);
    TornRead(reg);
    SteadyLater(reg, 1, 2);
    SteadyResult(reg, 2);
  }

  lemma SteadyLater(reg: History, t: nat, t': nat)
    requires Steady(reg, t) && t <= t'
    ensures Steady(reg, t') && At(reg, t') == At(reg, t)
  {
    forall i: nat | t' <= i ensures At(reg, i) == At(reg, t') {
      assert At(reg, i) == At(reg, t) == At(reg, t');
    }
  }

  /** Where the first reading of a register holding `f` ends. */
  function Turn(f: Register): nat { if f == ZERO then 1 else 3 }

  /** It ends there if the register has not changed by then. */
  lemma FirstReading(reg: History, f: Register)
    requires Rising(reg, 0) && forall i: nat :: i <= Turn(f) ==> At(reg, i) == f
    ensures Stable(reg, 0, ZERO) == Reading(f, Turn(f) + 1)
  {
    assert At(reg, 0) == At(reg, 1) == f && (f != ZERO ==> At(reg, 2) == At(reg, 3) == f);
    assert WordAt(reg, 0) == f && (f != ZERO ==> WordAt(reg, 2) == f);
  }

  /** Space freed between the two readings makes a chunk that did not fit as long as
      the new free size. */
  lemma OverrunChunk(len: u16, reg: History, f: Register, g: Register)
    requires f.Value() < len && f.AtMost(g) && Jumps(reg, f, g, Turn(f))
    ensures Rising(reg, 0) && ChunkSize(len, reg, 0) == g.Value()
  {
    JumpRises(reg, f, g, Turn(f));
    FirstReading(reg, f);
    SteadyResult(reg, Turn(f) + 1);
  }

  /** A length of which the driver takes exactly as much as asked, whatever the chip
      frees meanwhile, by the free size before. */
  predicate Safe(len: u16, free: u16) {
    len == 0 || (0x100 <= free && len <= free)
  }

  lemma SafeIsTaken(len: u16, reg: History)
    requires Rising(reg, 0) && Safe(len, At(reg, 0).Value())
    ensures ChunkSize(len, reg, 0) == len
  {
    if len > 0 { ChunkFits(len, reg, 0); }
  }

  lemma TakenAtMost(len: u16, reg: History, f: u16, max: u16)
    requires Possible(reg, f, max) && len >= max
    ensures ChunkSize(len, reg, 0) <= len
  {
    StableResult(reg, 0, ZERO);
    var t := Stable(reg, 0, ZERO).at;
    StableResult(reg, t, ZERO);
    var r := Stable(reg, t, ZERO);
    ValueOrder(r.value, At(reg, r.at));
    assert AtOrBelow(reg, r.at, max);
  }

  /** A length that is not safe can be taken too long, if there is any longer one. */
  lemma UnsafeOverruns(len: u16, f: Register, max: u16) returns (reg: History)
    requires !Safe(len, f.Value()) && f.Value() <= max && 0x100 <= max && len < max
    ensures Possible(reg, f.Value(), max) && ChunkSize(len, reg, 0) > len
  {
    if len <= f.Value() {
      reg := JumpIsPossible(f, Register(1, 0), 0, max);
      TornChunk(len, reg, f);
    } else {
      var g := Holding(len + 1);
      ValueOrder(f, g);
      reg := JumpIsPossible(f, g, Turn(f), max);
      OverrunChunk(len, reg, f, g);
    }
  }

  /** A chunk is never longer than asked exactly if the length is safe or not below the
      largest free size there is. */
  lemma NeverLongerThanAskedIff(len: u16, f: u16, max: u16)
    requires f <= max && 0x100 <= max
    ensures (forall reg :: Possible(reg, f, max) ==> ChunkSize(len, reg, 0) <= len) <==> Safe(len, f) || len >= max
  {
    if len >= max {
      forall reg | Possible(reg, f, max) ensures ChunkSize(len, reg, 0) <= len { TakenAtMost(len, reg, f, max); }
    } else if Safe(len, f) {
      forall reg | Possible(reg, f, max) ensures ChunkSize(len, reg, 0) <= len { SafeIsTaken(len, reg); }
    } else {
      var reg := UnsafeOverruns(len, Holding(f), max);
    }
  }

  /** It is as long as asked exactly if the length is safe. */
  lemma TakenAsAskedIff(len: u16, f: u16, max: u16)
    requires f <= max && 0x100 <= max
    ensures (forall reg :: Possible(reg, f, max) ==> ChunkSize(len, reg, 0) == len) <==>
      Safe(len, f)
  {
    if Safe(len, f) {
      forall reg | Possible(reg, f, max) ensures ChunkSize(len, reg, 0) == len { SafeIsTaken(len, reg); }
    } else if len < max {
      var reg := UnsafeOverruns(len, Holding(f), max);
    } else {
      var first := Holding(f);
      var reg := JumpIsPossible(first, first, 0, max);
      assert forall i: nat :: At(reg, i) == first;
      SteadyResult(reg, 0);
      ChunkAtRest(len, reg, 0);
    }
  }
}
