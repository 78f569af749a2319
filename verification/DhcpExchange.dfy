/** The DHCP exchange: what a reply teaches the client, the passes of the request loop
    from moment to moment, whole exchanges, and what the client holds behind them. */
module DhcpExchange {
  import opened Words
  import opened Wrappers
  import opened UdpChip
  import opened PacketReader
  import opened DhcpOptions
  import opened DhcpMessage
  import opened LeaseClock

  datatype State = Start | Discover | Request | Leased | Rerequest

  const SERVER_PORT: u16 := 67
  const BOOTREPLY: byte := 2

  /** The part of a reply read in one go: 34 bytes, completed by whatever was on the
      stack if the datagram is shorter. */
  type Stack = s: seq<byte> | |s| == 34 witness seq(34, _ => 0)

  /** What the client knows when it reads a reply. */
  datatype View = View(initial: u32, current: u32, mac: Mac, localIp: Ip, fields: Fields)

  /** A reply is for us: BOOTREPLY, from the server port, with our hardware address
      and a transaction id between the initial and the current one. */
  predicate ForUs(v: View, d: Datagram, stack: Stack) {
    var fixed := Over(stack, d.payload);
    && fixed[0] == BOOTREPLY && d.port == SERVER_PORT
    && fixed[28..34] == v.mac
    && v.initial <= FromBe32(fixed[4..8]) <= v.current
  }

  function ReplyId(d: Datagram, stack: Stack): u32 {
    FromBe32(Over(stack, d.payload)[4..8])
  }

  /** The fields after reading a reply; a reply for somebody else changes nothing. */
  function Learn(v: View, d: Datagram, stack: Stack): (r: (Ip, Fields)) {
    if ForUs(v, d, stack) then
      (Over(stack, d.payload)[16..20], Parse(v.fields.(typ := 0), Skip(d.payload, 240), d.ip))
    else
      (v.localIp, v.fields.(typ := 0))
  }

  /** For every message RFC 2131 can read, with options of the prescribed lengths and
      padding behind the end option, the client reads the same: it takes the message
      for its own exactly when operation, port, hardware address and transaction id
      say so, and then learns the address and the meaning of the options. */
  lemma ReplyIsUnderstood(v: View, d: Datagram, stack: Stack)
    requires Receive(d.payload).Some?
    requires AllFit(Receive(d.payload).value.opts) && PaddedAfterEnd(d.payload[240..])
    ensures var m := Receive(d.payload).value;
      && (ForUs(v, d, stack) <==>
            m.op == BOOTREPLY && d.port == SERVER_PORT && m.chaddr[..6] == v.mac && v.initial <= m.xid <= v.current)
      && (ForUs(v, d, stack) ==>
            && ReplyId(d, stack) == m.xid
            && Learn(v, d, stack) == (m.yiaddr, MeaningOfAll(v.fields.(typ := 0), m.opts, d.ip)))
  {
    var s := d.payload;
    FixedSlices(s);
    ParseIsMeaning(v.fields.(typ := 0), s[240..], d.ip);
  }

  lemma FixedSlices(s: seq<byte>)
    requires |s| >= 240
    ensures forall stack: Stack :: Over(stack, s) == s[..34]
    ensures s[..34][0] == s[0] && s[..34][28..34] == s[28..44][..6]
    ensures s[..34][4..8] == s[4..8] && s[..34][16..20] == s[16..20]
    ensures Skip(s, 240) == s[240..]
  {
  }

  /** Discard what a byte-by-byte skip leaves of the fixed part. */
  lemma SkipFixedPart(payload: seq<byte>)
    ensures Skip(Skip(payload, 34), 206) == Skip(payload, 240)
  {
    SkipSkip(payload, 34, 206);
  }

  /** The datagram is a reply for us and its options say message type `typ`. */
  predicate IsReply(v: View, d: Datagram, stack: Stack, typ: byte) {
    ForUs(v, d, stack) && Learn(v, d, stack).1.typ == typ
  }

  /** The message type a wait for a reply yields: 255 when nothing came, but also when a
      reply says so. */
  function TypeOf(v: View, got: Option<Datagram>, stack: Stack): byte {
    if got.None? then 255 else Learn(v, got.value, stack).1.typ
  }

  /** So a reply for the client counts as silence if its message type is 255 or cut off at
      its end, and only then. */
  lemma CountsAsSilenceIff(v: View, d: Datagram, stack: Stack, s: seq<byte>, t: seq<byte>)
    requires ForUs(v, d, stack) && Skip(d.payload, 240) == s + t
    requires OptionsIn(s).Some? && AllFit(OptionsIn(s).value) && (t == [] || CutOffType(t))
    ensures TypeOf(v, Some(d), stack) == TypeOf(v, None, stack) <==>
      t != [] || LastIs(OptionsIn(s).value, 53, [0], [255])
  {
    TypeIs255Iff(v.fields.(typ := 0), s, t, d.ip);
  }

  /** The state in which a wait leaves the exchange: it starts over when nothing came
      (or a message type 255), and on refusal. */
  function AfterWait(state: State, typ: byte): State {
    if typ == 255 then Start
    else if state == Discover && typ == OFFER then Request
    else if state == Request && typ == ACK then Leased
    else if state == Request && typ == NAK then Start
    else state
  }

  /** What the client knows after a wait. */
  function Heard(v: View, got: Option<Datagram>, stack: Stack): View {
    if got.None? then v
    else
      var (ip, f) := Learn(v, got.value, stack);
      v.(localIp := ip, fields := f.(typ := 0))
  }

  /** A new exchange starts under a fresh transaction id. */
  function WithId(v: View, id: u32): View { v.(initial := id, current := id) }

  /** What it knows once a lease is acknowledged: the lease times that are missing get
      their defaults, and the countdown to the renewal starts. */
  function Bound(v: View): View {
    var (lease, t1, t2) := Defaults(v.fields.leaseTime, v.fields.t1, v.fields.t2);
    v.(fields := v.fields.(leaseTime := lease, t1 := t1, t2 := t2, renewInSec := Signed32(t1)))
  }

  /** The exchange between two passes of the request loop. */
  datatype Moment = Moment(
    state: State, view: View, rebindInSec: int, now: nat, polls: nat, passes: nat, outbox: seq<seq<byte>>)

  function SecondsAt(now: nat, startTime: u32): u16 {
    Wrap16(Wrap32(Millis(now) - startTime) / 1000)
  }

  /** The message the client sends for what it knows. */
  function Sent(v: View, typ: byte, now: nat, startTime: u32): seq<byte> {
    Bytes(Outgoing(typ, v.current, SecondsAt(now, startTime), v.mac, v.localIp, v.fields.server))
  }

  /** One pass of the request loop leads from `a` to `b`: it sends, or it waits for
      `got` and follows it. */
  ghost predicate Follows(env: Environment, timeout: u32, startTime: u32, a: Moment, got: Option<Datagram>, b: Moment) {
    && a.state != Leased && b.passes == a.passes + 1
    && (if a.state in {Start, Rerequest} then got.None? && Spoke(env, startTime, a, b)
        else
          && b.state == AfterWait(a.state, TypeOf(a.view, got, env.stack))
          && Listened(env, timeout, startTime, a, a.now + env.pause(a.passes), got, b))
  }

  ghost predicate Spoke(env: Environment, startTime: u32, a: Moment, b: Moment) {
    && b.now == a.now + env.pause(a.passes) && b.polls == a.polls
    && b.state == (if a.state == Start then Discover else Request)
    && b.view == a.view.(current := Wrap32(a.view.current + 1)) && b.rebindInSec == a.rebindInSec
    && b.outbox == a.outbox + [Sent(b.view, if a.state == Start then DISCOVER else REQUEST, b.now, startTime)]
  }

  /** A wait from time `begun` on, and what it leaves; an offer is answered. */
  ghost predicate Listened(env: Environment, timeout: u32, startTime: u32, a: Moment, begun: nat,
                           got: Option<Datagram>, b: Moment) {
    && Waited(env.arrivals, timeout, got, a.polls, begun, b.polls, b.now)
    && b.rebindInSec == (if b.state == Leased then Signed32(b.view.fields.t2) else a.rebindInSec)
    && (if a.state == Discover && TypeOf(a.view, got, env.stack) == OFFER then
          && b.view == Heard(a.view, got, env.stack).(current := ReplyId(got.value, env.stack))
          && b.outbox == a.outbox + [Sent(b.view, REQUEST, b.now, startTime)]
        else
          && b.view == (if b.state == Leased then Bound(Heard(a.view, got, env.stack))
                        else Heard(a.view, got, env.stack))
          && b.outbox == a.outbox)
  }

  lemma SpokeFollows(env: Environment, timeout: u32, startTime: u32, a: Moment, b: Moment)
    requires a.state in {Start, Rerequest} && b.passes == a.passes + 1 && Spoke(env, startTime, a, b)
    ensures Follows(env, timeout, startTime, a, None, b)
  {
  }

  lemma ListenedFollows(env: Environment, timeout: u32, startTime: u32, a: Moment, got: Option<Datagram>,
                        typ: byte, c: Moment)
    requires a.state in {Discover, Request} && c.passes == a.passes + 1 && typ == TypeOf(a.view, got, env.stack)
    requires c.state == if typ == 255 then a.state else AfterWait(a.state, typ)
    requires var begun := a.now + env.pause(a.passes);
      Listened(env, timeout, startTime, a.(now := begun, passes := a.passes + 1), begun, got, c)
    ensures Follows(env, timeout, startTime, a, got, if typ == 255 then c.(state := Start) else c)
  {
  }

  /** All passes of one exchange: the moments, and what came between two of them. */
  datatype Run = Run(moments: seq<Moment>, gots: seq<Option<Datagram>>) {
    ghost predicate Sized() { |moments| == |gots| + 1 }

    ghost function Last(): Moment requires Sized() { moments[|gots|] }

    /** Every pass follows, and only the last may end after `timeout` or in LEASED. */
    ghost predicate Valid(env: Environment, timeout: u32, responseTimeout: u32) {
      && Sized()
      && forall i :: 0 <= i < |gots| ==> Goes(env, timeout, responseTimeout, i)
    }

    ghost predicate Goes(env: Environment, timeout: u32, responseTimeout: u32, i: nat)
      requires Sized() && i < |gots|
    {
      && Follows(env, responseTimeout, Millis(moments[0].now), moments[i], gots[i], moments[i + 1])
      && (i > 0 ==> moments[i].now - moments[0].now <= timeout)
    }

    function Then(got: Option<Datagram>, m: Moment): Run { Run(moments + [m], gots + [got]) }

    /** In pass `i` the client waits in REQUEST and finds an ACK for it. */
    ghost predicate Acknowledged(env: Environment, i: nat)
      requires Sized() && i < |gots|
    {
      && moments[i].state == Request && gots[i].Some?
      && IsReply(moments[i].view, gots[i].value, env.stack, ACK)
    }
  }

  lemma RunGrows(env: Environment, timeout: u32, responseTimeout: u32, run: Run, got: Option<Datagram>, m: Moment)
    requires run.Valid(env, timeout, responseTimeout)
    requires Follows(env, responseTimeout, Millis(run.moments[0].now), run.Last(), got, m)
    requires run.gots != [] ==> run.Last().now - run.moments[0].now <= timeout
    ensures run.Then(got, m).Valid(env, timeout, responseTimeout) && run.Then(got, m).Last() == m
    ensures run.Then(got, m).moments[0] == run.moments[0]
  {
    var longer := run.Then(got, m);
    forall i | 0 <= i < |longer.gots| ensures longer.Goes(env, timeout, responseTimeout, i) {
      if i < |run.gots| { assert run.Goes(env, timeout, responseTimeout, i); }
    }
  }

  lemma PassAcknowledged(env: Environment, timeout: u32, responseTimeout: u32, run: Run, i: nat)
    requires run.Valid(env, timeout, responseTimeout) && i < |run.gots|
    ensures run.Acknowledged(env, i) <==> run.moments[i + 1].state == Leased
    ensures i + 1 < |run.gots| ==> run.moments[i + 1].state != Leased
  {
    assert run.Goes(env, timeout, responseTimeout, i);
    LeasedByAck(env, responseTimeout, Millis(run.moments[0].now), run.moments[i], run.gots[i], run.moments[i + 1]);
    if i + 1 < |run.gots| { assert run.Goes(env, timeout, responseTimeout, i + 1); }
  }

  /** An exchange ends with the lease exactly if some wait in REQUEST, in a pass begun in
      time, finds an ACK for the client. */
  lemma LeasedIff(env: Environment, timeout: u32, responseTimeout: u32, run: Run)
    requires run.Valid(env, timeout, responseTimeout) && run.gots != []
    ensures run.Last().state == Leased <==> exists i :: 0 <= i < |run.gots| && run.Acknowledged(env, i)
  {
    var n := |run.gots| - 1;
    PassAcknowledged(env, timeout, responseTimeout, run, n);
    forall i | 0 <= i < n ensures !run.Acknowledged(env, i) {
      PassAcknowledged(env, timeout, responseTimeout, run, i);
    }
  }

  /** The client holds at `m` what `ack`, an acknowledgement for it when it knew `seen`,
      says: the addresses and lease times, with both countdowns started. */
  ghost predicate Granted(env: Environment, ack: Option<Datagram>, seen: View, m: Moment) {
    && ack.Some? && IsReply(seen, ack.value, env.stack, ACK)
    && var held := Bound(Heard(seen, ack, env.stack));
      m.view.localIp == held.localIp && m.view.fields == held.fields && m.rebindInSec == Signed32(held.fields.t2)
  }

  /** At `m` the client holds the lease a poll from number `from` on has brought it, for
      its own hardware address and a transaction id of its last exchange. */
  ghost predicate Holds(env: Environment, from: nat, m: Moment) {
    exists i, seen :: HoldsFrom(env, from, i, seen, m)
  }

  ghost predicate HoldsFrom(env: Environment, from: nat, i: nat, seen: View, m: Moment) {
    && from <= i < m.polls && Granted(env, env.arrivals(i), seen, m)
    && seen.mac == m.view.mac && seen.initial == m.view.initial && seen.current <= m.view.current
  }

  /** Using up a transaction id does not change that. */
  lemma HoldsOn(env: Environment, from: nat, m: Moment, m': Moment)
    requires Holds(env, from, m)
    requires m' == m.(view := m.view.(current := m'.view.current)) && m.view.current <= m'.view.current
    ensures Holds(env, from, m')
  {
    var i, seen :| HoldsFrom(env, from, i, seen, m);
    assert HoldsFrom(env, from, i, seen, m');
  }

  lemma HoldsEarlier(env: Environment, from: nat, from': nat, m: Moment)
    requires Holds(env, from', m) && from <= from'
    ensures Holds(env, from, m)
  {
    var i, seen :| HoldsFrom(env, from', i, seen, m);
    assert HoldsFrom(env, from, i, seen, m);
  }

  /** The first message after `before` is one of type `typ`. */
  ghost predicate SentFirst(before: seq<seq<byte>>, typ: byte, mac: Mac, after: seq<seq<byte>>) {
    exists m: Outgoing :: m.typ == typ && m.mac == mac && before + [Bytes(m)] <= after
  }

  function FirstType(state: State): byte { if state == Rerequest then REQUEST else DISCOVER }

  lemma SentStays(before: seq<seq<byte>>, typ: byte, mac: Mac, after: seq<seq<byte>>, later: seq<seq<byte>>)
    requires SentFirst(before, typ, mac, after) && after <= later
    ensures SentFirst(before, typ, mac, later)
  {
    var m: Outgoing :| m.typ == typ && m.mac == mac && before + [Bytes(m)] <= after;
    assert before + [Bytes(m)] <= later;
  }

  /** Everything is zero before a new exchange. */
  function Unbound(m: Moment): Moment {
    var zero: Ip := [0, 0, 0, 0];
    m.(state := Start, view := m.view.(localIp := zero,
      fields := m.view.fields.(subnetMask := zero, gateway := zero, server := zero, dns := zero)))
  }

  /** What a pass keeps, and what it does at the beginning and at the end. */
  lemma FollowsKeeps(env: Environment, timeout: u32, startTime: u32, a: Moment, got: Option<Datagram>, b: Moment)
    requires Follows(env, timeout, startTime, a, got, b)
    ensures a.polls <= b.polls && a.outbox <= b.outbox && b.state != Rerequest
    ensures b.view.mac == a.view.mac && b.view.initial == a.view.initial
    ensures a.state != Leased && (b.state != Leased ==> b.rebindInSec == a.rebindInSec)
    ensures a.state in {Start, Rerequest} ==>
      b.state in {Discover, Request} && SentFirst(a.outbox, FirstType(a.state), a.view.mac, b.outbox)
  {
    if a.state in {Start, Rerequest} {
      var m := Outgoing(FirstType(a.state), b.view.current, SecondsAt(b.now, startTime), b.view.mac, b.view.localIp,
                        b.view.fields.server);
      assert a.outbox + [Bytes(m)] <= b.outbox;
    }
  }

  /** The pass that enters LEASED: the acknowledgement is what its last poll found. */
  lemma FollowsHolds(env: Environment, timeout: u32, startTime: u32, a: Moment, got: Option<Datagram>, b: Moment)
    requires Follows(env, timeout, startTime, a, got, b) && b.state == Leased
    ensures b.polls > a.polls && HoldsFrom(env, a.polls, b.polls - 1, a.view, b)
  {
  }

  lemma LeasedByAck(env: Environment, responseTimeout: u32, startTime: u32, a: Moment, got: Option<Datagram>, b: Moment)
    requires Follows(env, responseTimeout, startTime, a, got, b)
    ensures b.state == Leased <==> a.state == Request && got.Some? && IsReply(a.view, got.value, env.stack, ACK)
  {
  }

  /** Every message sent before moment `i` is still the first. */
  lemma {:induction false} RunKeeps(env: Environment, timeout: u32, responseTimeout: u32, run: Run, i: nat)
    requires run.Valid(env, timeout, responseTimeout) && i <= |run.gots|
    ensures var a, m := run.moments[0], run.moments[i];
      && a.polls <= m.polls && a.outbox <= m.outbox && m.view.mac == a.view.mac && m.view.initial == a.view.initial
      && (m.state != Leased ==> m.rebindInSec == a.rebindInSec)
      && (i > 0 && a.state in {Start, Rerequest} ==> SentFirst(a.outbox, FirstType(a.state), a.view.mac, m.outbox))
  {
    if i > 0 {
      RunKeeps(env, timeout, responseTimeout, run, i - 1);
      assert run.Goes(env, timeout, responseTimeout, i - 1);
      var startTime := Millis(run.moments[0].now);
      FollowsKeeps(env, responseTimeout, startTime, run.moments[i - 1], run.gots[i - 1], run.moments[i]);
    }
  }

  /** A run that ends in LEASED ends with the lease one of its polls has brought. */
  lemma RunHolds(env: Environment, timeout: u32, responseTimeout: u32, run: Run)
    requires run.Valid(env, timeout, responseTimeout) && run.gots != [] && run.Last().state == Leased
    ensures Holds(env, run.moments[0].polls, run.Last())
  {
    var n := |run.gots| - 1;
    RunKeeps(env, timeout, responseTimeout, run, n);
    assert run.Goes(env, timeout, responseTimeout, n);
    FollowsHolds(env, responseTimeout, Millis(run.moments[0].now), run.moments[n], run.gots[n], run.Last());
    assert HoldsFrom(env, run.moments[0].polls, run.Last().polls - 1, run.moments[n].view, run.Last());
  }

  /** Longest a pass can take: its own pause and one wait for a response. */
  function LongestPass(env: Environment, responseTimeout: u32): nat { env.longest + responseTimeout + 50 }

  /** A whole exchange: it ends in LEASED exactly if some wait in REQUEST found an ACK, gives
      up only when the time is over, and takes bounded time. */
  ghost predicate Concluded(env: Environment, timeout: u32, responseTimeout: u32, run: Run) {
    && run.Valid(env, timeout, responseTimeout) && run.gots != []
    && var a, b := run.moments[0], run.Last();
      && a.now <= b.now <= a.now + timeout + LongestPass(env, responseTimeout)
      && (b.state == Leased <==> exists i :: 0 <= i < |run.gots| && run.Acknowledged(env, i))
      && (b.state != Leased ==> b.state != Rerequest && b.now - a.now > timeout)
  }

  /** An exchange from `a` to `b`, behind which its last transaction id is used up. */
  ghost predicate Led(env: Environment, timeout: u32, responseTimeout: u32, a: Moment, run: Run, b: Moment) {
    && Concluded(env, timeout, responseTimeout, run) && run.moments[0] == a
    && b.view.current == run.Last().view.current + 1
    && b == run.Last().(view := run.Last().view.(current := b.view.current))
  }

  /** What a request for a lease leads to, from `start` to `end`: a message goes out exactly
      if a socket is free, and success means holding what a poll has brought. */
  ghost predicate Result(env: Environment, free: bool, start: Moment, result: int, end: Moment) {
    && start.polls <= end.polls && end.view.mac == start.view.mac
    && (result == if end.state == Leased then 1 else 0)
    && (if end.state == Leased then Holds(env, start.polls, end) else end.rebindInSec == start.rebindInSec)
    && (if free then
          end.state != Rerequest && SentFirst(start.outbox, FirstType(start.state), start.view.mac, end.outbox)
        else
          end.state == start.state && end.outbox == start.outbox)
  }

  /** That, and how request number `n` leads there: by a run of passes under an id of its
      own, or by nothing but picking the id. */
  ghost predicate Outcome(env: Environment, timeout: u32, responseTimeout: u32, n: nat,
                          start: Moment, result: int, end: Moment) {
    && Result(env, env.socketFree(n), start, result, end)
    && var a := start.(view := WithId(start.view, env.randoms(n)));
      if env.socketFree(n) then exists run :: Led(env, timeout, responseTimeout, a, run, end) else end == a
  }

  /** That is what a run leads to. */
  lemma RunOutcome(env: Environment, timeout: u32, responseTimeout: u32, n: nat, run: Run,
                   start: Moment, result: int, end: Moment)
    requires start.state in {Start, Rerequest} && env.socketFree(n)
    requires var a := start.(view := WithId(start.view, env.randoms(n)));
      Led(env, timeout, responseTimeout, a, run, end)
    requires result == if end.state == Leased then 1 else 0
    ensures Outcome(env, timeout, responseTimeout, n, start, result, end)
  {
    var k := |run.gots|;
    RunKeeps(env, timeout, responseTimeout, run, k);
    assert run.Goes(env, timeout, responseTimeout, k - 1);
    var startTime := Millis(run.moments[0].now);
    FollowsKeeps(env, responseTimeout, startTime, run.moments[k - 1], run.gots[k - 1], run.Last());
    if end.state == Leased {
      RunHolds(env, timeout, responseTimeout, run);
      HoldsOn(env, start.polls, run.Last(), end);
    }
  }

  predicate RenewalDue(m: Moment) { m.state == Leased && m.view.fields.renewInSec <= 0 }

  predicate RebindingDue(m: Moment) { m.state in {Leased, Start} && m.rebindInSec <= 0 }

  /** The two branches of `checkLease`, from `a` over `mid` to `b`: a renewal if it is due,
      and then, if rebinding is due, an exchange from zero.  `n` and `n'` count the requests. */
  ghost predicate Kept(env: Environment, timeout: u32, responseTimeout: u32,
                       a: Moment, n: nat, mid: Moment, rc: int, b: Moment, n': nat) {
    var renewed := if mid.state == Leased then 1 else 0;
    var n1 := if RenewalDue(a) then n + 1 else n;
    && (if RenewalDue(a) then
          Outcome(env, timeout, responseTimeout, n, a.(state := Rerequest), renewed, mid)
        else
          mid == a)
    && (if RebindingDue(mid) then
          n' == n1 + 1 && Outcome(env, timeout, responseTimeout, n1, Unbound(mid), rc - 3, b)
        else
          n' == n1 && b == mid && rc == if RenewalDue(a) then 1 + renewed else 0)
  }

  /** What the caller is told: a lease is asked for exactly when a countdown is over in
      LEASED or START; a message goes out if a socket is free, to renew or else to begin
      afresh; what is reported as renewed or rebound is held by what a poll has brought;
      and a renewal without a free socket ends in REREQUEST, where nothing is due again. */
  ghost predicate Told(env: Environment, a: Moment, n: nat, rc: int, b: Moment, n': nat) {
    var renewal := a.state == Leased && a.view.fields.renewInSec <= 0;
    var rebinding := (a.state == Leased || a.state == Start) && a.rebindInSec <= 0;
    && rc in {0, 1, 2, 3, 4} && (rc in {1, 2} ==> renewal)
    && (rc > 0 <==> renewal || rebinding) && (rc > 0 <==> n' > n) && (rc == 0 ==> b == a)
    && (rc in {2, 4} <==> rc > 0 && b.state == Leased) && (rc in {2, 4} ==> Holds(env, a.polls, b))
    && (rc > 0 && env.socketFree(n) ==> SentFirst(a.outbox, if renewal then 3 else 1, a.view.mac, b.outbox))
    && (renewal && !env.socketFree(n) ==>
          rc == 1 && b.state == Rerequest && b.outbox == a.outbox && !RenewalDue(b) && !RebindingDue(b))
  }

  lemma KeptTells(env: Environment, timeout: u32, responseTimeout: u32,
                  a: Moment, n: nat, mid: Moment, rc: int, b: Moment, n': nat)
    requires Kept(env, timeout, responseTimeout, a, n, mid, rc, b, n')
    ensures Told(env, a, n, rc, b, n')
  {
    ResultsTell(env, a, n, mid, rc, b, n');
  }

  lemma ResultsTell(env: Environment, a: Moment, n: nat, mid: Moment, rc: int, b: Moment, n': nat)
    requires var n1 := if RenewalDue(a) then n + 1 else n;
      && (if RenewalDue(a) then
            Result(env, env.socketFree(n), a.(state := Rerequest), if mid.state == Leased then 1 else 0, mid)
          else
            mid == a)
      && (if RebindingDue(mid) then
            n' == n1 + 1 && Result(env, env.socketFree(n1), Unbound(mid), rc - 3, b)
          else
            n' == n1 && b == mid && rc == if RenewalDue(a) then (if mid.state == Leased then 2 else 1) else 0)
    ensures Told(env, a, n, rc, b, n')
  {
    if RebindingDue(mid) {
      if b.state == Leased { HoldsEarlier(env, a.polls, mid.polls, b); }
      if RenewalDue(a) && env.socketFree(n) { SentStays(a.outbox, REQUEST, a.view.mac, mid.outbox, b.outbox); }
    }
  }

  class Environment {
    /** What the n-th call of `parsePacket` finds. */
    const arrivals: nat -> Option<Datagram>
    /** Milliseconds the n-th pass of the request loop takes besides waiting. */
    const pause: nat -> nat
    const longest: nat
    const randoms: nat -> u32
    const socketFree: nat -> bool
    const stack: Stack

    constructor (arrivals: nat -> Option<Datagram>, pause: nat -> nat, longest: nat,
                 randoms: nat -> u32, socketFree: nat -> bool, stack: Stack)
      requires forall i :: 1 <= pause(i) <= longest
      requires forall i :: 1 <= randoms(i) < 2000
      ensures Sane()
    {
      this.arrivals, this.pause, this.longest := arrivals, pause, longest;
      this.randoms, this.socketFree, this.stack := randoms, socketFree, stack;
    }

    ghost predicate Sane() {
      && (forall i :: 1 <= pause(i) <= longest)
      && (forall i :: 1 <= randoms(i) < 2000)
    }
  }
}
