/** The hand-made one-shot timers behind the gate and trigger relays. */
module RelayTimer {
  import opened Words
  import opened LeaseClock
  import opened ReplyProtocol

  /** GATE_UP_DELAYTIME, GATE_DOWN_DELAYTIME and TRIGGER_DELAYTIME. */
  const DELAY: u32 := 500

  datatype Timer = Timer(active: bool, start: u32, offset: u32)

  const IDLE: Timer := Timer(false, 0, 0)

  /** A command starts the timer; it does not touch the offset. */
  function Started(t: Timer, now: nat): Timer {
    Timer(true, Millis(now), t.offset)
  }

  /** One branch of `RelayProc`, with its two clock readings. */
  function Polled(t: Timer, now1: nat, now2: nat): (r: (Timer, bool))
    ensures r.1 ==> r.0 == IDLE
    ensures !t.active ==> r == (t, false)
    ensures t.active && !r.1 ==> r.0.active
  {
    if !t.active then (t, false)
    else
      var t1 := if Millis(now1) < t.start then t.(offset := Overflowed(t.start), start := 0) else t;
      if Wrap32(Millis(now2) - t1.start) > Wrap32(DELAY - t1.offset) then (IDLE, true)
      else (t1, false)
  }

  /** A poll, by the true times of its two clock readings. */
  datatype Poll = Poll(now1: nat, now2: nat)

  /** How long a timer started with `offset` left over waits within a clock round. */
  function Wait(offset: u32): u32 { Wrap32(DELAY - offset) }

  /** When a timer started at true time `from` is due at a poll: after its wait, or,
      once the clock has wrapped, after two milliseconds more than the delay.  The
      second holds only if the deadline itself lies beyond the wrap. */
  predicate Due(from: nat, offset: u32, p: Poll) {
    if p.now1 < RoundEnd(from) then p.now2 - from > Wait(offset)
    else Straddles(from) && p.now2 - from > DELAY + 2
  }

  /** Started in the last 502 ms of a clock round. */
  predicate Straddles(from: nat) { Millis(from) >= 0x1_0000_0000 - (DELAY + 2) }

  /** The timer started at `from` with `offset` is running and was last polled by `now`. */
  ghost predicate Runs(t: Timer, from: nat, offset: u32, now: nat) {
    && t.active && from <= now
    && (|| (t.start == Millis(from) && t.offset == offset)
        || (t.start == 0 && t.offset == Overflowed(Millis(from)) && now >= RoundEnd(from)))
  }

  /** What a poll at `p` does to a timer started at `from`. */
  ghost predicate DecidedAt(t: Timer, from: nat, offset: u32, p: Poll) {
    var (t', fires) := Polled(t, p.now1, p.now2);
    (fires <==> Due(from, offset, p)) && (!fires ==> Runs(t', from, offset, p.now2))
  }

  lemma PollDecides(t: Timer, from: nat, offset: u32, now: nat, p: Poll)
    requires Runs(t, from, offset, now) && now <= p.now1 <= p.now2 < from + 0x1_0000_0000
    ensures DecidedAt(t, from, offset, p)
  {
    if p.now1 < RoundEnd(from) {
      SameRound(from, p.now1);
      Elapsed(from, p.now2);
    } else {
      NextRound(from, p.now1);
      NextRound(from, p.now2);
      DecidesAfterWrap(t, from, offset, p);
    }
  }

  lemma DecidesAfterWrap(t: Timer, from: nat, offset: u32, p: Poll)
    requires Runs(t, from, offset, p.now1) && RoundEnd(from) <= p.now1 <= p.now2
    requires Millis(p.now1) < Millis(from) && Millis(p.now2) < Millis(from)
    requires p.now2 - from == Millis(p.now2) + 0x1_0000_0000 - Millis(from)
    ensures DecidedAt(t, from, offset, p)
  {
    ThresholdAfterWrap(Millis(from), Millis(p.now2));
  }

  /** After a wrap the comparison is one in true time if the deadline straddles it,
      and false otherwise. */
  lemma ThresholdAfterWrap(start: u32, now: u32)
    requires now < start
    ensures now > Wait(Overflowed(start)) <==>
      start >= 0x1_0000_0000 - (DELAY + 2) && now + 0x1_0000_0000 - start > DELAY + 2
  {
    StaleWait(start);
  }

  /** A wrap noticed leaves an offset that makes the wait the start reading plus 502. */
  lemma StaleWait(start: u32)
    ensures Wait(Overflowed(start)) == Wrap32(start + (DELAY + 2))
  {
    if start < 0xFFFF_FFFF {
      assert Overflowed(start) == 0xFFFF_FFFE - start;
    }
  }

  lemma NextRound(from: nat, to: nat)
    requires RoundEnd(from) <= to < from + 0x1_0000_0000
    ensures Millis(to) == to - RoundEnd(from) < Millis(from)
    ensures to - from == Millis(to) + 0x1_0000_0000 - Millis(from)
  {
  }

  /** Polls in time order, all within one clock period of the start. */
  ghost predicate PollsOf(from: nat, now: nat, ps: seq<Poll>)
    decreases |ps|
  {
    ps == [] ||
    (now <= ps[0].now1 <= ps[0].now2 < from + 0x1_0000_0000 && PollsOf(from, ps[0].now2, ps[1..]))
  }

  /** The number of polls before the one that fires. */
  function FiresAt(t: Timer, ps: seq<Poll>): (k: nat)
    ensures k <= |ps|
    decreases |ps|
  {
    if ps == [] then 0
    else
      var (t', fires) := Polled(t, ps[0].now1, ps[0].now2);
      if fires then 0 else 1 + FiresAt(t', ps[1..])
  }

  function FirstDue(from: nat, offset: u32, ps: seq<Poll>): (k: nat)
    ensures k <= |ps|
    decreases |ps|
  {
    if ps == [] || Due(from, offset, ps[0]) then 0 else 1 + FirstDue(from, offset, ps[1..])
  }

  /** What is due by the first `n` polls. */
  lemma {:induction false} FirstDuePrefix(from: nat, offset: u32, ps: seq<Poll>, n: nat)
    requires n <= |ps|
    ensures FirstDue(from, offset, ps[..n]) < n <==> FirstDue(from, offset, ps) < n
    decreases n
  {
    if n > 0 && !Due(from, offset, ps[0]) {
      assert ps[..n][0] == ps[0] && ps[..n][1..] == ps[1..][..n - 1];
      FirstDuePrefix(from, offset, ps[1..], n - 1);
    }
  }

  lemma {:induction false} PollsOfPrefix(from: nat, now: nat, ps: seq<Poll>, n: nat)
    requires PollsOf(from, now, ps) && n <= |ps|
    ensures PollsOf(from, now, ps[..n])
    decreases n
  {
    if n > 0 {
      assert ps[..n][0] == ps[0] && ps[..n][1..] == ps[1..][..n - 1];
      PollsOfPrefix(from, ps[0].now2, ps[1..], n - 1);
    }
  }

  /** For every start, whatever offset is left over, and every sequence of polls, the
      timer fires at the first poll that finds it due, and only then. */
  lemma FiresWhenDue(t: Timer, from: nat, ps: seq<Poll>)
    requires PollsOf(from, from, ps)
    ensures FiresAt(Started(t, from), ps) == FirstDue(from, t.offset, ps)
  {
    FiresWhenDueFrom(Started(t, from), from, t.offset, from, ps);
  }

  lemma {:induction false} FiresWhenDueFrom(t: Timer, from: nat, offset: u32, now: nat, ps: seq<Poll>)
    requires Runs(t, from, offset, now) && PollsOf(from, now, ps)
    ensures FiresAt(t, ps) == FirstDue(from, offset, ps)
    decreases |ps|
  {
    if ps != [] {
      PollDecides(t, from, offset, now, ps[0]);
      if !Due(from, offset, ps[0]) {
        FiresWhenDueFrom(Polled(t, ps[0].now1, ps[0].now2).0, from, offset, ps[0].now2, ps[1..]);
      }
    }
  }

  /** What the sketch means to do: fire at the first poll after the delay. */
  predicate Meant(from: nat, p: Poll) {
    p.now2 - from > 500 + (if p.now1 < RoundEnd(from) then 0 else 2)
  }

  function FirstMeant(from: nat, ps: seq<Poll>): (k: nat)
    ensures k <= |ps|
    decreases |ps|
  {
    if ps == [] || Meant(from, ps[0]) then 0 else 1 + FirstMeant(from, ps[1..])
  }

  /** With a clean offset it does so exactly when the deadline is polled before the wrap
      or lies beyond it; otherwise the relay stays on past that poll. */
  lemma FiresAsMeantIff(t: Timer, from: nat, ps: seq<Poll>)
    requires t.offset == 0 && PollsOf(from, from, ps)
    ensures var k := FirstMeant(from, ps);
      FiresAt(Started(t, from), ps) == k <==>
      k == |ps| || ps[k].now1 < RoundEnd(from) || Straddles(from)
  {
    FiresWhenDue(t, from, ps);
    FirstMeantIsDueIff(from, ps);
  }

  lemma {:induction false} FirstMeantIsDueIff(from: nat, ps: seq<Poll>)
    ensures var k := FirstMeant(from, ps);
      FirstDue(from, 0, ps) == k <==> k == |ps| || ps[k].now1 < RoundEnd(from) || Straddles(from)
    decreases |ps|
  {
    if ps != [] && !Meant(from, ps[0]) { FirstMeantIsDueIff(from, ps[1..]); }
  }

  /** Missed before a wrap that comes later than the deadline, the timer does not fire
      at any poll of the next round. */
  lemma {:induction false} MissedDeadlineIsLost(t: Timer, from: nat, offset: u32, now: nat, ps: seq<Poll>)
    requires Runs(t, from, offset, now) && !Straddles(from) && now >= RoundEnd(from) && PollsOf(from, now, ps)
    ensures FiresAt(t, ps) == |ps|
    decreases |ps|
  {
    if ps != [] {
      PollDecides(t, from, offset, now, ps[0]);
      MissedDeadlineIsLost(Polled(t, ps[0].now1, ps[0].now2).0, from, offset, ps[0].now2, ps[1..]);
    }
  }

  // ----- Restarts -----

  /** Within the clock round of its start a timer waits as its old offset says. */
  lemma RestartWaits(t: Timer, from: nat, p: Poll)
    requires from <= p.now1 <= p.now2 < RoundEnd(from)
    ensures Polled(Started(t, from), p.now1, p.now2).1 <==> p.now2 - from > Wait(t.offset)
  {
    SameRound(from, p.now1);
    SameRound(from, p.now2);
  }

  ghost predicate AsMeantAt(t: Timer, from: nat, p: Poll) {
    Polled(Started(t, from), p.now1, p.now2).1 <==> Meant(from, p)
  }

  /** At all polls of that round it decides as meant exactly if the offset is clean, or
      the round ends before it could show. */
  lemma RestartFiresAsMeantIff(t: Timer, from: nat)
    ensures (forall p: Poll :: from <= p.now1 <= p.now2 < RoundEnd(from) ==> AsMeantAt(t, from, p)) <==>
      t.offset == 0 || RoundEnd(from) - from <= Min(DELAY, Wait(t.offset)) + 1
  {
    forall p: Poll | from <= p.now1 <= p.now2 < RoundEnd(from)
      ensures Polled(Started(t, from), p.now1, p.now2).1 <==> p.now2 - from > Wait(t.offset)
    {
      RestartWaits(t, from, p);
    }
    var e := from + Min(DELAY, Wait(t.offset)) + 1;
    if t.offset != 0 && e < RoundEnd(from) {
      var p := Poll(e, e);
      assert !AsMeantAt(t, from, p);
    }
  }

  /** A timer that noticed a wrap and is started again waits for its first start's clock
      reading plus 502 ms: too long by up to a clock period unless the first deadline
      straddled the wrap. */
  lemma RestartAfterWrap(t: Timer, first: nat, offset: u32, now: nat, from: nat, p: Poll)
    requires Runs(t, first, offset, now) && t.start == 0 && t.offset == Overflowed(Millis(first))
    requires from <= p.now1 <= p.now2 < RoundEnd(from)
    ensures Polled(Started(t, from), p.now1, p.now2).1 <==>
      p.now2 - from > Millis(first) + (DELAY + 2) - (if Straddles(first) then 0x1_0000_0000 else 0)
  {
    RestartWaits(t, from, p);
    StaleWait(Millis(first));
  }

  /** Such a run: a gate opened at clock reading 2^31, polled 5 ms behind the wrap and
      opened again 10 s behind it is still held 2 * 10^9 ms later. */
  lemma HeldForWeeks()
    ensures var again, late := 0x1_0000_0000 + 10_000, 0x1_0000_0000 + 2_000_010_000;
      var noticed := Polled(Started(IDLE, 0x8000_0000), 0x1_0000_0000 + 5, 0x1_0000_0000 + 5);
      !noticed.1 && !Polled(Started(noticed.0, again), late, late).1
  {
    var first, seen := 0x8000_0000, 0x1_0000_0000 + 5;
    var again, late := 0x1_0000_0000 + 10_000, 0x1_0000_0000 + 2_000_010_000;
    assert RoundEnd(first) == 0x1_0000_0000 && Millis(first) == first;
    PollDecides(Started(IDLE, first), first, 0, first, Poll(seen, seen));
    var noticed := Polled(Started(IDLE, first), seen, seen).0;
    assert Millis(seen) == 5;
    RestartAfterWrap(noticed, first, 0, seen, again, Poll(late, late));
  }
}
