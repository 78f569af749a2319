/** The sketch's reply protocol: after a command the acknowledgement is repeated a
    bounded number of times, at least `REPLY_PERIOD` ms apart, until ACK_R comes. */
module ReplyProtocol {
  import opened Words
  import opened LeaseClock

  const REPLY_PERIOD: u32 := 1000
  const MAX_ACK_SEND: int := 3
  const REPLY_MAX_REQ: int := 3

  /** What the overflow branch stores: it takes the clock to end at 0xFFFFFFFE. */
  function Overflowed(since: u32): u32 { Wrap32(0xFFFF_FFFE - since) }

  /** The globals of the protocol. */
  datatype Reply = Reply(sendCount: int, acked: bool, reqCount: byte, previous: u32, offset: u32)

  /** `ReplyInit`, at clock reading `m`. */
  function Init(r: Reply, m: u32): Reply {
    r.(previous := Wrap32(m - REPLY_PERIOD), reqCount := 0, offset := 0, acked := false)
  }

  /** GETDEVICEINFO pretends that two of three replies have been sent. */
  function OnInfo(r: Reply, m: u32): Reply { Init(r.(sendCount := 2), m) }

  function OnCommand(r: Reply, m: u32): Reply { Init(r.(sendCount := 0), m) }

  function OnAckR(r: Reply): Reply { r.(sendCount := 0, acked := true) }

  /** `SendReply`: the new counters, and whether anything is sent. */
  function Send(r: Reply): (Reply, bool) {
    if r.sendCount < MAX_ACK_SEND then (r.(sendCount := r.sendCount + 1), true)
    else (r.(acked := true, sendCount := 0), false)
  }

  /** The reply block of `loop`; `m1`, `m2`, `m3` are its three clock readings. */
  function Poll(r: Reply, m1: u32, m2: u32, m3: u32): (Reply, bool) {
    if r.acked || r.reqCount >= REPLY_MAX_REQ - 1 then (r, false)
    else
      var r1 := if m1 < r.previous then r.(offset := Overflowed(r.previous), previous := 0) else r;
      if Wrap32(m2 - r1.previous) > Wrap32(REPLY_PERIOD - r1.offset) then
        var (r2, sent) := Send(r1.(offset := 0, previous := m3));
        (r2.(reqCount := r2.reqCount + 1), sent)
      else
        (r1, false)
  }

  // ----- Runs -----

  /** What happens, at true times. */
  datatype Event =
    | InfoRequest(at: nat)
    | Command(at: nat)
    | AckR(at: nat)
    | Pass(at: nat, at2: nat, at3: nat)

  /** The protocol state, the time of the last event, the kind of the last command,
      the times of the replies sent to it and whether ACK_R came for it. */
  datatype Run = Run(reply: Reply, now: nat, info: bool, sends: seq<nat>, confirmed: bool)

  ghost predicate Happens(s: Run, e: Event) {
    s.now <= e.at && (e.Pass? ==> e.at <= e.at2 <= e.at3)
  }

  function Step(s: Run, e: Event): Run {
    match e
    case InfoRequest(t) => Run(OnInfo(s.reply, Millis(t)), t, true, [], false)
    case Command(t) => Run(OnCommand(s.reply, Millis(t)), t, false, [], false)
    case AckR(t) => s.(reply := OnAckR(s.reply), now := t, confirmed := true)
    case Pass(t1, t2, t3) =>
      var (reply, sent) := Poll(s.reply, Millis(t1), Millis(t2), Millis(t3));
      s.(reply := reply, now := t3, sends := if sent then s.sends + [t3] else s.sends)
  }

  ghost predicate Possible(s: Run, es: seq<Event>)
    decreases |es|
  {
    es == [] || (Happens(s, es[0]) && Possible(Step(s, es[0]), es[1..]))
  }

  function After(s: Run, es: seq<Event>): Run
    decreases |es|
  {
    if es == [] then s else After(Step(s, es[0]), es[1..])
  }

  /** Start of the sketch: nothing to acknowledge. */
  function Initial(now: nat): Run {
    Run(Reply(0, true, 0, 0, 0), now, false, [], false)
  }

  ghost predicate Spaced(sends: seq<nat>) {
    forall i :: 0 <= i < |sends| - 1 ==> sends[i + 1] > sends[i] + 1000
  }

  /** End of the clock round that true time `t` is in. */
  function RoundEnd(t: nat): nat { (t / 0x1_0000_0000 + 1) * 0x1_0000_0000 }

  /** The two variables of the timer still tell when the last reply went out: either
      they are its clock reading, or a wrap since then has been noticed. */
  ghost predicate Remembers(r: Reply, last: nat, now: nat) {
    || (r.previous == Millis(last) && r.offset == 0)
    || (r.previous == 0 && r.offset == Overflowed(Millis(last)) && now >= RoundEnd(last))
  }

  ghost predicate Inv(s: Run) {
    && Spaced(s.sends)
    && |s.sends| <= s.reply.reqCount <= 2
    && (s.info ==> |s.sends| <= 1)
    && (s.confirmed ==> s.reply.acked)
    && (!s.reply.acked ==> s.reply.sendCount == |s.sends| + (if s.info then 2 else 0))
    && (s.sends != [] ==> s.sends[|s.sends| - 1] <= s.now)
    && (s.sends != [] && !s.reply.acked ==> Remembers(s.reply, s.sends[|s.sends| - 1], s.now))
  }

  /** A pass that finds the period over finds it over in true time. */
  lemma PeriodIsOver(last: nat, t1: nat, t2: nat, now: nat, r: Reply)
    requires last <= now <= t1 <= t2 && Remembers(r, last, now)
    ensures var r1 := if Millis(t1) < r.previous then r.(offset := Overflowed(r.previous), previous := 0) else r;
      && Remembers(r1, last, t1)
      && (Wrap32(Millis(t2) - r1.previous) > Wrap32(REPLY_PERIOD - r1.offset) ==> t2 - last > REPLY_PERIOD)
  {
    var p := Millis(last);
    if r.offset == 0 && r.previous == p && Millis(t1) >= p {
      ClockDifference(last, t2);
    } else {
      if r.previous == p && Millis(t1) < p { NewRound(last, t1); }
      RoundLater(last, t2);
    }
  }

  /** The clock cannot show more than has passed. */
  lemma ClockDifference(from: nat, to: nat)
    requires from <= to
    ensures Wrap32(Millis(to) - Millis(from)) <= to - from
  {
    Cong(Millis(to) - Millis(from), to - from);
  }

  lemma NewRound(from: nat, to: nat)
    requires from <= to && Millis(to) < Millis(from)
    ensures to >= RoundEnd(from)
  {
  }

  lemma RoundLater(from: nat, to: nat)
    requires to >= RoundEnd(from)
    ensures to - from >= Millis(to) + 0x1_0000_0000 - Millis(from)
  {
  }

  /** Exactly when a pass within a clock period of the last reply sends another: while fewer
      than three count as sent, more than the period later; but behind a clock wrap only if
      the period straddles it, and 2 ms later. */
  lemma PassSendsIff(r: Reply, last: nat, now: nat, t1: nat, t2: nat, t3: nat)
    requires Remembers(r, last, now) && last <= now <= t1 <= t2 < last + 0x1_0000_0000
    requires !r.acked && r.reqCount < 2
    ensures Poll(r, Millis(t1), Millis(t2), Millis(t3)).1 <==>
      r.sendCount < 3 &&
      (if t1 < RoundEnd(last) then t2 - last > 1000
       else Millis(last) >= 0x1_0000_0000 - 1002 && t2 - last > 1002)
    ensures r.sendCount >= 3 && t1 < RoundEnd(last) && t2 - last > 1000 ==>
      Poll(r, Millis(t1), Millis(t2), Millis(t3)).0.acked
  {
    var p := Millis(last);
    if t1 < RoundEnd(last) {
      SameRound(last, t1);
      Elapsed(last, t2);
    } else {
      LaterRound(last, t1);
      LaterRound(last, t2);
      PeriodBehindWrap(p, Millis(t2));
    }
  }

  /** Behind a wrap the comparison is one in true time if the period straddles it, and
      false otherwise. */
  lemma PeriodBehindWrap(p: u32, m: u32)
    requires m < p
    ensures m > Wrap32(REPLY_PERIOD - Overflowed(p)) <==>
      p >= 0x1_0000_0000 - 1002 && m + 0x1_0000_0000 - p > 1002
  {
    OverflowedPeriod(p);
  }

  lemma OverflowedPeriod(p: u32)
    ensures Wrap32(REPLY_PERIOD - Overflowed(p)) == Wrap32(p + 1002)
  {
    if p < 0xFFFF_FFFF {
      assert Overflowed(p) == 0xFFFF_FFFE - p;
    }
  }

  lemma LaterRound(from: nat, to: nat)
    requires RoundEnd(from) <= to < from + 0x1_0000_0000
    ensures Millis(to) == to - RoundEnd(from) < Millis(from)
    ensures to - from == Millis(to) + 0x1_0000_0000 - Millis(from)
  {
  }

  /** Behind a command the first reply is due at once, as if one had been sent 1000 ms ago;
      two passes may send, and one if the command was GETDEVICEINFO. */
  lemma CommandStartsReplies(s: Run, t: nat, info: bool)
    requires t >= 1000
    ensures var r := Step(s, if info then InfoRequest(t) else Command(t)).reply;
      && r.previous == Millis(t - 1000) && r.offset == 0 && Remembers(r, t - 1000, t)
      && !r.acked && r.reqCount == 0 && r.sendCount == if info then 2 else 0
  {
    ThousandBefore(t);
  }

  lemma ThousandBefore(t: nat)
    requires t >= 1000
    ensures Wrap32(Millis(t) - REPLY_PERIOD) == Millis(t - 1000)
  {
    Cong(Millis(t) - REPLY_PERIOD, t - 1000);
  }

  /** A reply sent counts, and its time is remembered; so is a wrap that is noticed. */
  lemma PassRemembers(r: Reply, last: nat, now: nat, t1: nat, t2: nat, t3: nat)
    requires Remembers(r, last, now) && last <= now <= t1 <= t2 <= t3
    requires !r.acked && r.reqCount < 2
    ensures var (r', sent) := Poll(r, Millis(t1), Millis(t2), Millis(t3));
      && (sent ==> Remembers(r', t3, t3) && !r'.acked)
      && (sent ==> r'.reqCount == r.reqCount + 1 && r'.sendCount == r.sendCount + 1)
      && (!sent && r.sendCount < 3 ==> Remembers(r', last, t1) && r'.reqCount == r.reqCount && !r'.acked)
  {
    PeriodIsOver(last, t1, t2, now, r);
  }

  /** Every event keeps the invariant, whatever the interleaving and wherever the
      clock wraps. */
  lemma StepKeepsInv(s: Run, e: Event)
    requires Inv(s) && Happens(s, e)
    ensures Inv(Step(s, e))
  {
    if e.Pass? && !s.reply.acked && s.reply.reqCount < 2 {
      var s' := Step(s, e);
      if s.sends != [] {
        var last := s.sends[|s.sends| - 1];
        PeriodIsOver(last, e.at, e.at2, s.now, s.reply);
      }
    }
  }

  /** For every run of the sketch: after each command and before the next at most one
      reply is sent to GETDEVICEINFO and at most two otherwise, and two replies are
      more than the period apart. */
  lemma {:induction false} RepliesAreBounded(s: Run, es: seq<Event>)
    requires Inv(s) && Possible(s, es)
    ensures Inv(After(s, es))
    ensures var r := After(s, es); |r.sends| <= (if r.info then 1 else 2) && Spaced(r.sends)
    decreases |es|
  {
    if es != [] {
      StepKeepsInv(s, es[0]);
      RepliesAreBounded(Step(s, es[0]), es[1..]);
    }
  }

  lemma InitialInv(now: nat)
    ensures Inv(Initial(now))
  {
  }

  /** Nothing is sent between ACK_R and the next command. */
  lemma {:induction false} SilentAfterAckR(s: Run, t: nat, es: seq<Event>)
    requires forall i :: 0 <= i < |es| ==> es[i].Pass? || es[i].AckR?
    ensures After(Step(s, AckR(t)), es).sends == s.sends
    decreases |es|
  {
    SilentOnceAcked(Step(s, AckR(t)), es);
  }

  lemma {:induction false} SilentOnceAcked(s: Run, es: seq<Event>)
    requires s.reply.acked
    requires forall i :: 0 <= i < |es| ==> es[i].Pass? || es[i].AckR?
    ensures After(s, es).sends == s.sends
    decreases |es|
  {
    if es != [] { SilentOnceAcked(Step(s, es[0]), es[1..]); }
  }

  /** The bound is met: two passes late enough, away from a wrap, send two replies,
      and a third pass sends none.  The comment in the sketch promises three. */
  lemma TwoNotThree(s: Run, t: nat, a: nat, b: nat, c: nat)
    requires s.now <= t < a && a + REPLY_PERIOD < b <= c
    requires Millis(t) >= REPLY_PERIOD && c < RoundEnd(t)
    ensures After(s, [Command(t), Pass(a, a, a), Pass(b, b, b), Pass(c, c, c)]).sends == [a, b]
  {
    var es := [Command(t), Pass(a, a, a), Pass(b, b, b), Pass(c, c, c)];
    SameRound(t, a); SameRound(t, b); SameRound(t, c);
    var s1 := Step(s, es[0]);
    var s2 := Step(s1, es[1]);
    var s3 := Step(s2, es[2]);
    assert s2.sends == [a];
    assert s3.sends == [a] + [b];
    var s4 := Step(s3, es[3]);
    assert s4.sends == s3.sends;
    assert es[1..] == [es[1], es[2], es[3]] && [es[1], es[2], es[3]][1..] == [es[2], es[3]];
    assert [es[2], es[3]][1..] == [es[3]] && [es[3]][1..] == [];
    assert After(s4, []) == s4;
    assert After(s3, [es[3]]) == s4;
    assert After(s2, [es[2], es[3]]) == s4;
    assert After(s1, [es[1], es[2], es[3]]) == s4;
  }

  lemma SameRound(t: nat, u: nat)
    requires t <= u < RoundEnd(t)
    ensures Millis(u) - Millis(t) == u - t
  {
  }
}
