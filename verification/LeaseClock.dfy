/** Lease time keeping: seconds counted from a 32-bit millisecond clock that wraps,
    and the two countdowns they are taken off. */
module LeaseClock {
  import opened Words

  /** The reading of the millisecond clock at true time `t`. */
  function Millis(t: nat): u32 { Wrap32(t) }

  datatype Clock = Clock(lastCheck: u32, secTimeout: u32)

  /** `(long)now - (long)secTimeout`, in 32 bits. */
  function Late(now: u32, secTimeout: u32): int {
    Signed32(Wrap32(Signed32(now) - Signed32(secTimeout)))
  }

  /** The clock part of `checkLease`: the new clock and the seconds to deduct. */
  function Check(c: Clock, now: u32): (r: (Clock, nat)) {
    if c.lastCheck == 0 then
      (Clock(now, Wrap32(Signed32(now) + 1000)), 0)
    else
      var factor := Late(now, c.secTimeout);
      if factor >= 0 then Due(now, factor) else (c.(lastCheck := now), 0)
  }

  /** `factor` ms past the timeout: the next one is at the next whole second. */
  function Due(now: u32, factor: nat): (Clock, nat) {
    (Clock(now, Wrap32(Signed32(now) + 1000 - factor % 1000)), factor / 1000 + 1)
  }

  /** The deductions made by those calls, one per call that was due. */
  function Deductions(c: Clock, ts: seq<nat>): (fs: seq<nat>)
    ensures forall i :: 0 <= i < |fs| ==> fs[i] > 0
    decreases |ts|
  {
    if ts == [] then []
    else
      var (c', f) := Check(c, Millis(ts[0]));
      (if f > 0 then [f] else []) + Deductions(c', ts[1..])
  }

  function Sum(fs: seq<nat>): nat {
    if fs == [] then 0 else fs[0] + Sum(fs[1..])
  }

  /** Calls less than 2^31 ms apart, none but the last at clock reading 0. */
  ghost predicate Schedule(ts: seq<nat>) {
    && ts != []
    && (forall i :: 0 <= i < |ts| - 1 ==> Millis(ts[i]) != 0)
    && (forall i :: 0 <= i < |ts| - 1 ==> ts[i] <= ts[i + 1] < ts[i] + 0x8000_0000)
  }

  /** Whole seconds between two true times. */
  function Seconds(from: int, to: int): int { (to - from) / 1000 }

  /** After a call at true time `t`, `k` whole seconds after the first call at `t0`:
      `secTimeout` is the next whole second. */
  ghost predicate OnTime(c: Clock, t0: nat, t: nat, k: nat) {
    && t0 + 1000 * k <= t < t0 + 1000 * (k + 1)
    && c == Clock(Millis(t), Millis(t0 + 1000 * (k + 1)))
  }

  lemma LateIsTrueDelay(t: nat, due: nat)
    requires -0x8000_0000 <= t - due < 0x8000_0000
    ensures Late(Millis(t), Millis(due)) == t - due
  {
    LateIsWrappedDelay(t, due);
  }

  lemma LateIsWrappedDelay(t: nat, due: nat)
    ensures Late(Millis(t), Millis(due)) == Signed32(Wrap32(t - due))
  {
    SignedIsCongruent(t);
    SignedIsCongruent(due);
    Cong(Signed32(Millis(t)) - Signed32(Millis(due)), t - due);
  }

  /** Congruent numbers wrap to the same word. */
  lemma Cong(a: int, b: int)
    requires (a - b) % 0x1_0000_0000 == 0
    ensures Wrap32(a) == Wrap32(b)
  {
  }

  /** One call, in true time. */
  lemma CheckInTrueTime(c: Clock, t: nat, due: nat)
    requires c.lastCheck != 0 && c.secTimeout == Millis(due)
    requires -1000 <= t - due < 0x8000_0000
    ensures var q := (t - due) / 1000;
      Check(c, Millis(t)) ==
        if t >= due then (Clock(Millis(t), Millis(due + 1000 * (q + 1))), q + 1) else (c.(lastCheck := Millis(t)), 0)
  {
    LateIsTrueDelay(t, due);
    if t >= due {
      DueInTrueTime(t, due);
    }
  }

  lemma DueInTrueTime(t: nat, due: nat)
    requires due <= t
    ensures var q := (t - due) / 1000;
      Due(Millis(t), t - due) == (Clock(Millis(t), Millis(due + 1000 * (q + 1))), q + 1)
  {
    NextTimeout(t, due, (t - due) / 1000, (t - due) % 1000);
  }

  lemma NextTimeout(t: nat, due: nat, q: nat, r: nat)
    requires t - due == 1000 * q + r
    ensures Wrap32(Signed32(Millis(t)) + 1000 - r) == Millis(due + 1000 * (q + 1))
  {
    SignedIsCongruent(t);
    Cong(Signed32(Millis(t)) + 1000 - r, due + 1000 * (q + 1));
  }

  lemma SignedIsCongruent(t: nat)
    ensures (Signed32(Millis(t)) - t) % 0x1_0000_0000 == 0
  {
  }

  /** The difference of two clock readings is the time between them, wrap or not. */
  lemma Elapsed(from: nat, to: nat)
    requires from <= to < from + 0x1_0000_0000
    ensures Wrap32(Millis(to) - Millis(from)) == to - from
  {
    Cong(Millis(to) - Millis(from), to - from);
  }

  /** A call before the due second plus 2^31 ms keeps the count on time. */
  lemma CheckStaysOnTime(c: Clock, t0: nat, t: nat, k: nat, t': nat)
    requires OnTime(c, t0, t, k) && Millis(t) != 0
    requires t <= t' < t0 + 1000 * (k + 1) + 0x8000_0000
    ensures var (c', f) := Check(c, Millis(t')); OnTime(c', t0, t', k + f)
  {
    var due := t0 + 1000 * (k + 1);
    CheckInTrueTime(c, t', due);
    if t' >= due {
      var q := (t' - due) / 1000;
      assert 1000 * q <= t' - due < 1000 * (q + 1);
    }
  }

  /** What a call counts, at any true time. */
  lemma CallCounts(c: Clock, t: nat, due: nat)
    requires c.lastCheck != 0 && c.secTimeout == Millis(due)
    ensures var late := Wrap32(t - due);
      Check(c, Millis(t)).1 == if late < 0x8000_0000 then late / 1000 + 1 else 0
  {
    LateIsWrappedDelay(t, due);
  }

  /** Past the due second it counts right exactly if it comes less than 2^31 ms late. */
  lemma CountsRightIff(c: Clock, t: nat, due: nat)
    requires c.lastCheck != 0 && c.secTimeout == Millis(due) && due <= t
    ensures Check(c, Millis(t)).1 == (t - due) / 1000 + 1 <==> t - due < 0x8000_0000
    ensures 0x8000_0000 <= t - due < 0x1_0000_0000 ==> Check(c, Millis(t)).1 == 0
  {
    CallCounts(c, t, due);
    WrapIsSmaller(t - due);
  }

  lemma WrapIsSmaller(d: nat)
    ensures d < 0x1_0000_0000 ==> Wrap32(d) == d
    ensures d >= 0x1_0000_0000 ==> Wrap32(d) + 0x1_0000_0000 <= d && Wrap32(d) / 1000 < d / 1000
  {
  }

  /** Exactly when a call within one clock period keeps the count on time: after a
      call at clock reading 0 the next one must not be a millisecond later. */
  lemma StaysOnTimeIff(c: Clock, t0: nat, t: nat, k: nat, t': nat)
    requires OnTime(c, t0, t, k) && t <= t' < t + 0x1_0000_0000
    ensures var (c', f) := Check(c, Millis(t'));
      OnTime(c', t0, t', k + f) <==>
        if Millis(t) != 0 then t' < t0 + 1000 * (k + 1) + 0x8000_0000 else t' == t == t0 + 1000 * k
  {
    var due := t0 + 1000 * (k + 1);
    if Millis(t) == 0 {
      StartsAfresh(c, t');
      if t' < due { SameReading(t' + 1000, due); }
    } else if t' < due + 0x8000_0000 {
      CheckStaysOnTime(c, t0, t, k, t');
    } else {
      CountsRightIff(c, t', due);
    }
  }

  /** Times less than a clock period apart show the same reading only if equal. */
  lemma SameReading(a: nat, b: nat)
    requires -0x1_0000_0000 < a - b < 0x1_0000_0000
    ensures Millis(a) == Millis(b) <==> a == b
  {
  }

  /** The first call, and the one after a call at clock reading 0. */
  lemma StartsAfresh(c: Clock, t: nat)
    requires c.lastCheck == 0
    ensures Check(c, Millis(t)) == (Clock(Millis(t), Millis(t + 1000)), 0)
    ensures OnTime(Check(c, Millis(t)).0, t, t, 0)
  {
    SignedIsCongruent(t);
    Cong(Signed32(Millis(t)) + 1000, t + 1000);
  }

  /** Calls none of which is 2^31 ms past the second due after the one before.  The
      count began at `t0`, the last call was at `t`. */
  ghost predicate Prompt(t0: nat, t: nat, ts: seq<nat>)
    decreases |ts|
  {
    ts == [] ||
    (t <= ts[0] &&
     if Millis(t) == 0 then Prompt(ts[0], ts[0], ts[1..])
     else ts[0] < t0 + 1000 * (Seconds(t0, t) + 1) + 0x8000_0000 && Prompt(t0, ts[0], ts[1..]))
  }

  /** The whole seconds of the stretches between calls at clock reading 0: such a call
      ends a stretch, and the next call begins one. */
  function Counted(t0: nat, t: nat, ts: seq<nat>): int
    decreases |ts|
  {
    if ts == [] then Seconds(t0, t)
    else if Millis(t) == 0 then Seconds(t0, t) + Counted(ts[0], ts[0], ts[1..])
    else Counted(t0, ts[0], ts[1..])
  }

  /** For every prompt schedule, through any number of wraps and of calls at clock
      reading 0, the seconds deducted are those of the stretches. */
  lemma DeductsStretches(secTimeout: u32, ts: seq<nat>)
    requires ts != [] && Prompt(ts[0], ts[0], ts[1..])
    ensures Sum(Deductions(Clock(0, secTimeout), ts)) == Counted(ts[0], ts[0], ts[1..])
  {
    var c := Clock(0, secTimeout);
    StartsAfresh(c, ts[0]);
    var c' := Check(c, Millis(ts[0])).0;
    assert [] + Deductions(c', ts[1..]) == Deductions(c', ts[1..]);
    DeductsStretchesFrom(c', ts[0], ts[0], ts[1..]);
  }

  lemma DeductionsFront(c: Clock, ts: seq<nat>)
    requires ts != []
    ensures var (c', f) := Check(c, Millis(ts[0]));
      Sum(Deductions(c, ts)) == f + Sum(Deductions(c', ts[1..]))
  {
    var (c', f) := Check(c, Millis(ts[0]));
    SumFront(f, Deductions(c', ts[1..]));
  }

  lemma {:induction false} DeductsStretchesFrom(c: Clock, t0: nat, t: nat, ts: seq<nat>)
    requires t0 <= t && OnTime(c, t0, t, Seconds(t0, t)) && Prompt(t0, t, ts)
    ensures Seconds(t0, t) + Sum(Deductions(c, ts)) == Counted(t0, t, ts)
    decreases |ts|
  {
    if ts != [] {
      var (c', f) := Check(c, Millis(ts[0]));
      DeductionsFront(c, ts);
      NextCall(c, t0, t, ts[0]);
      DeductsStretchesFrom(c', if Millis(t) == 0 then ts[0] else t0, ts[0], ts[1..]);
    }
  }

  /** The next call starts afresh behind one at clock reading 0, and otherwise goes on. */
  lemma NextCall(c: Clock, t0: nat, t: nat, t': nat)
    requires t0 <= t <= t' && OnTime(c, t0, t, Seconds(t0, t))
    requires Millis(t) != 0 ==> t' < t0 + 1000 * (Seconds(t0, t) + 1) + 0x8000_0000
    ensures var (c', f) := Check(c, Millis(t'));
      if Millis(t) == 0 then f == 0 && OnTime(c', t', t', 0)
      else Seconds(t0, t) + f == Seconds(t0, t') && OnTime(c', t0, t', Seconds(t0, t'))
  {
    if Millis(t) == 0 {
      StartsAfresh(c, t');
    } else {
      CheckStaysOnTime(c, t0, t, Seconds(t0, t), t');
    }
  }

  /** It is never more than the time that has passed, and all of it without a call at
      clock reading 0 on the way. */
  lemma {:induction false} CountedIsAtMostPassed(t0: nat, t: nat, ts: seq<nat>)
    requires t0 <= t && Prompt(t0, t, ts)
    ensures var last := if ts == [] then t else ts[|ts| - 1];
      && t <= last && Counted(t0, t, ts) <= Seconds(t0, last)
      && ((forall i :: 0 <= i < |ts| ==> Millis(([t] + ts)[i]) != 0) ==> Counted(t0, t, ts) == Seconds(t0, last))
    decreases |ts|
  {
    if ts != [] {
      var calls := [t] + ts;
      assert calls[0] == t;
      assert forall i :: 0 <= i < |ts| - 1 ==> ([ts[0]] + ts[1..])[i] == calls[i + 1];
      if Millis(t) == 0 {
        CountedIsAtMostPassed(ts[0], ts[0], ts[1..]);
      } else {
        CountedIsAtMostPassed(t0, ts[0], ts[1..]);
      }
    }
  }

  /** Over every schedule, and through any number of clock wraps, the seconds
      deducted are the whole seconds since the first call. */
  lemma DriftFree(secTimeout: u32, ts: seq<nat>)
    requires Schedule(ts)
    ensures Sum(Deductions(Clock(0, secTimeout), ts)) == Seconds(ts[0], ts[|ts| - 1])
  {
    assert [ts[0]] + ts[1..] == ts;
    SchedulesArePrompt(ts[0], ts[0], ts[1..]);
    DeductsStretches(secTimeout, ts);
    CountedIsAtMostPassed(ts[0], ts[0], ts[1..]);
  }

  lemma {:induction false} SchedulesArePrompt(t0: nat, t: nat, ts: seq<nat>)
    requires t0 <= t && Schedule([t] + ts)
    ensures Prompt(t0, t, ts)
    decreases |ts|
  {
    if ts != [] {
      var s := [t] + ts;
      assert Millis(s[0]) != 0 && s[0] <= s[1] < s[0] + 0x8000_0000;
      assert [ts[0]] + ts[1..] == s[1..];
      ScheduleTail(s);
      SchedulesArePrompt(t0, ts[0], ts[1..]);
    }
  }

  lemma ScheduleTail(ts: seq<nat>)
    requires Schedule(ts) && |ts| > 1
    ensures Schedule(ts[1..])
  {
    var s := ts[1..];
    forall i | 0 <= i < |s| - 1 ensures Millis(s[i]) != 0 && s[i] <= s[i + 1] < s[i] + 0x8000_0000 {
      assert s[i] == ts[i + 1] && s[i + 1] == ts[i + 2];
    }
  }

  lemma SumFront(f: nat, fs: seq<nat>)
    ensures Sum((if f > 0 then [f] else []) + fs) == f + Sum(fs)
  {
    if f > 0 { assert ([f] + fs)[1..] == fs; } else { assert [] + fs == fs; }
  }

  /** A call at clock reading 0 looks like no call at all: the next one starts the
      count afresh and loses the whole gap. */
  lemma CallAtClockZeroLosesNextGap(c: Clock, t: nat, t': nat)
    requires Millis(t) == 0
    ensures Check(Check(c, Millis(t)).0, Millis(t')).1 == 0
  {
  }

  /** A first call, a prompt one at clock reading 0 and any later one: the gap behind
      the second is lost, and the count is right exactly if no whole second ends in it. */
  lemma ClockZeroDrifts(secTimeout: u32, t0: nat, t: nat, t': nat)
    requires t0 <= t <= t' && Millis(t) == 0
    requires Millis(t0) != 0 && t - t0 < 0x8000_0000 + 1000
    ensures Sum(Deductions(Clock(0, secTimeout), [t0, t, t'])) == Seconds(t0, t)
    ensures Sum(Deductions(Clock(0, secTimeout), [t0, t, t'])) == Seconds(t0, t') <==>
      t' < t0 + 1000 * (Seconds(t0, t) + 1)
  {
    var ts := [t0, t, t'];
    assert ts[1..] == [t, t'];
    StretchesAtZero(t0, t, t');
    DeductsStretches(secTimeout, ts);
    SameSecondsIff(t0, t, t');
  }

  lemma StretchesAtZero(t0: nat, t: nat, t': nat)
    requires t0 <= t <= t' && Millis(t) == 0
    requires Millis(t0) != 0 && t - t0 < 0x8000_0000 + 1000
    ensures Prompt(t0, t0, [t, t']) && Counted(t0, t0, [t, t']) == Seconds(t0, t)
  {
    assert [t, t'][1..] == [t'] && [t'][1..] == [];
    assert Seconds(t0, t0) == 0 == Seconds(t', t');
    assert Prompt(t', t', []) && Counted(t', t', []) == 0;
    assert Prompt(t0, t, [t']) && Counted(t0, t, [t']) == Seconds(t0, t);
  }

  lemma SameSecondsIff(t0: nat, t: nat, t': nat)
    requires t0 <= t <= t'
    ensures Seconds(t0, t) == Seconds(t0, t') <==> t' < t0 + 1000 * (Seconds(t0, t) + 1)
  {
  }

  // ----- The countdowns -----

  /** Taking `factor` seconds off a countdown, early rather than late. */
  function Deduct(left: int, factor: nat): int {
    if left < factor * 2 then 0 else left - factor
  }

  function Countdown(left: int, fs: seq<nat>): int
    decreases |fs|
  {
    if fs == [] then left else Countdown(Deduct(left, fs[0]), fs[1..])
  }

  ghost predicate Positive(fs: seq<nat>) {
    forall i :: 0 <= i < |fs| ==> fs[i] > 0
  }

  /** A countdown that has not run out has lost exactly what was counted; it runs
      out no later than its length. */
  lemma {:induction false} CountdownIsExact(left: nat, fs: seq<nat>)
    requires Positive(fs)
    ensures var r := Countdown(left, fs);
      && r >= 0
      && (r > 0 ==> r == left - Sum(fs))
      && (Sum(fs) >= left ==> r == 0)
    decreases |fs|
  {
    if fs != [] {
      CountdownIsExact(Deduct(left, fs[0]), fs[1..]);
    }
  }

  /** When it runs out early, it does so by less than the last deduction. */
  lemma RunsOutBarelyEarly(left: nat, fs: seq<nat>, f: nat)
    requires Positive(fs) && f > 0
    requires Countdown(left, fs) > 0 && Countdown(left, fs + [f]) == 0
    ensures left - Sum(fs + [f]) < f
  {
    CountdownIsExact(left, fs);
    CountdownAppend(left, fs, f);
  }

  lemma {:induction false} CountdownAppend(left: int, fs: seq<nat>, f: nat)
    ensures Countdown(left, fs + [f]) == Deduct(Countdown(left, fs), f)
    ensures Sum(fs + [f]) == Sum(fs) + f
    decreases |fs|
  {
    if fs == [] {
      assert fs + [f] == [f] && [f][1..] == [];
    } else {
      assert (fs + [f])[1..] == fs[1..] + [f];
      CountdownAppend(Deduct(left, fs[0]), fs[1..], f);
    }
  }

  /** The renewal countdown never overtakes the rebinding one. */
  lemma {:induction false} RenewBeforeRebind(renew: nat, rebind: nat, fs: seq<nat>)
    requires renew <= rebind && Positive(fs)
    ensures 0 <= Countdown(renew, fs) <= Countdown(rebind, fs)
    decreases |fs|
  {
    if fs != [] {
      RenewBeforeRebind(Deduct(renew, fs[0]), Deduct(rebind, fs[0]), fs[1..]);
    }
  }

  /** Both halves together: after any schedule of polls a running countdown of `t1`
      seconds shows the true whole seconds left. */
  lemma CountdownTellsTrueTime(secTimeout: u32, ts: seq<nat>, t1: nat)
    requires Schedule(ts)
    ensures var left := Countdown(t1, Deductions(Clock(0, secTimeout), ts));
      var passed := Seconds(ts[0], ts[|ts| - 1]);
      && left >= 0 && (left > 0 ==> left == t1 - passed) && (passed >= t1 ==> left == 0)
  {
    DriftFree(secTimeout, ts);
    CountdownIsExact(t1, Deductions(Clock(0, secTimeout), ts));
  }

  /** Exactly when a running countdown is over at the next deduction: fewer seconds would
      be left than were just counted. */
  lemma RunsOutIff(left: nat, fs: seq<nat>, f: nat)
    requires Positive(fs) && f > 0 && Countdown(left, fs) > 0
    ensures Countdown(left, fs + [f]) == 0 <==> left - Sum(fs + [f]) < f
    ensures Countdown(left, fs + [f]) != 0 ==> Countdown(left, fs + [f]) == left - Sum(fs + [f])
  {
    CountdownIsExact(left, fs);
    CountdownAppend(left, fs, f);
  }

  /** A call at the `j`-th of these times finds fewer seconds left of `t1`, in true time
      since the first, than have gone by since the call before. */
  ghost predicate RenewsAt(times: seq<nat>, t1: int, j: nat)
    requires j < |times|
  {
    j > 0
    && var before, passed := Seconds(times[0], times[j - 1]), Seconds(times[0], times[j]);
      passed > before && t1 - passed < passed - before
  }

  /** After the `j`-th call the clock is on time and `left` is what is left of `t1`. */
  ghost predicate CountsTrue(c: Clock, times: seq<nat>, t1: int, left: int, j: nat)
    requires j < |times|
  {
    && times[0] <= times[j] && OnTime(c, times[0], times[j], Seconds(times[0], times[j]))
    && left == t1 - Seconds(times[0], times[j])
  }

  /** So one call of a schedule does to a countdown. */
  lemma CallCountsTrue(c: Clock, times: seq<nat>, t1: int, left: int, j: nat)
    requires Schedule(times) && 0 < j < |times| && left > 0 && CountsTrue(c, times, t1, left, j - 1)
    ensures var (c', f) := Check(c, Millis(times[j]));
      var left' := if f > 0 then Deduct(left, f) else left;
      && OnTime(c', times[0], times[j], Seconds(times[0], times[j])) && times[0] <= times[j]
      && (left' <= 0 <==> RenewsAt(times, t1, j))
      && (left' > 0 ==> CountsTrue(c', times, t1, left', j))
  {
    assert times[j - 1] <= times[j] < times[j - 1] + 0x8000_0000 && Millis(times[j - 1]) != 0;
    CheckStaysOnTime(c, times[0], times[j - 1], Seconds(times[0], times[j - 1]), times[j]);
  }

  // ----- The lease values on acknowledgement -----

  const DEFAULT_LEASE: u32 := 900

  /** Lease time, T1 and T2 after an ACK, given what options left in the fields. */
  function Defaults(leaseTime: u32, t1: u32, t2: u32): (r: (u32, u32, u32)) {
    var lease := if leaseTime == 0 then DEFAULT_LEASE else leaseTime;
    var first := if t1 == 0 then lease / 2 else t1;
    (lease, first, if t2 == 0 then Wrap32(first * 2) else t2)
  }

  /** The countdowns start out as the lemmas above need exactly when T1 <= T2 < 2^31. */
  lemma CountdownsStartSoundIff(leaseTime: u32, t1: u32, t2: u32)
    ensures var (lease, first, second) := Defaults(leaseTime, t1, t2);
      0 <= Signed32(first) <= Signed32(second) <==> first <= second < 0x8000_0000
  {
  }

  /** Without T1 and T2 options they are sound exactly for leases below 2^31
      seconds; the infinite lease 0xFFFFFFFF has a negative rebinding time. */
  lemma DefaultsSoundIff(leaseTime: u32)
    ensures var (lease, first, second) := Defaults(leaseTime, 0, 0);
      0 <= Signed32(first) <= Signed32(second) <==> lease < 0x8000_0000
    ensures Signed32(Defaults(0xFFFF_FFFF, 0, 0).2) == -2
  {
  }

  /** The default T2 is the lease time rounded down to even, and 7/8 of it only for
      four tiny leases. */
  lemma DefaultT2IsNotSevenEighths(leaseTime: u32)
    ensures var (lease, first, second) := Defaults(leaseTime, 0, 0);
      && second == lease - lease % 2
      && (second == lease * 7 / 8 <==> lease in {1, 3, 5, 7})
  {
  }

  /** On renewal a T1 kept from the earlier lease wins over half the new lease. */
  lemma RenewalKeepsOldT1(oldLease: u32, newLease: u32)
    requires oldLease >= 2
    ensures var (l1, first, second) := Defaults(oldLease, 0, 0);
      var (l2, first', second') := Defaults(newLease, first, second);
      && first' == first && (first' == l2 / 2 <==> l2 / 2 == oldLease / 2)
  {
  }
}
