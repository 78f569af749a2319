/** What the exchange comes to, in bytes of messages, options by number, states and times,
    with none of the functions the client is described by. */
module DhcpMeaning {
  import opened Words
  import opened Wrappers
  import opened UdpChip
  import opened DhcpOptions
  import opened DhcpMessage
  import opened LeaseClock
  import opened DhcpExchange

  // ----- Replies -----

  /** A message RFC 2131 can read, with options of the prescribed lengths. */
  ghost predicate WellFormed(d: Datagram) {
    Receive(d.payload).Some? && AllFit(Receive(d.payload).value.opts) && PaddedAfterEnd(d.payload[240..])
  }

  /** A reply to this client, in its present exchange. */
  ghost predicate ForClient(v: View, d: Datagram)
    requires WellFormed(d)
  {
    var r := Receive(d.payload).value;
    r.op == 2 && d.port == 67 && r.chaddr[..6] == v.mac && v.initial <= r.xid <= v.current
  }

  /** The message type in a reply for the client, 0 if there is none. */
  ghost predicate Says(v: View, d: Datagram, typ: byte)
    requires WellFormed(d)
  {
    if ForClient(v, d) then LastIs(Receive(d.payload).value.opts, 53, [0], [typ]) else typ == 0
  }

  /** The addresses after the reply: the one offered, and those of options 1, 3, 6 and 54;
      what is missing stays. */
  ghost predicate AddressesSaid(v: View, d: Datagram, w: View)
    requires WellFormed(d)
  {
    var r := Receive(d.payload).value;
    && w.localIp == r.yiaddr
    && LastIs(r.opts, 1, v.fields.subnetMask, w.fields.subnetMask)
    && LastBegins(r.opts, 3, v.fields.gateway, w.fields.gateway)
    && LastBegins(r.opts, 6, v.fields.dns, w.fields.dns)
    && (LastOf(r.opts, 54).None? || v.fields.server !in {[0, 0, 0, 0], d.ip} ==> w.fields.server == v.fields.server)
    && (LastOf(r.opts, 54).Some? && v.fields.server in {[0, 0, 0, 0], d.ip} ==>
          forall server: Ip :: NoServerBut(r.opts, server) ==> w.fields.server == server)
  }

  /** The times of options 51, 58 and 59. */
  ghost predicate TimesSaid(v: View, d: Datagram, w: View)
    requires WellFormed(d)
  {
    var opts := Receive(d.payload).value.opts;
    && w.fields.leaseTime == Number(opts, 51, v.fields.leaseTime)
    && w.fields.t1 == Number(opts, 58, v.fields.t1) && w.fields.t2 == Number(opts, 59, v.fields.t2)
  }

  /** What the client learns from any well-formed reply. */
  lemma HeardIsSaid(v: View, d: Datagram, stack: Stack)
    requires WellFormed(d)
    ensures var w := Heard(v, Some(d), stack);
      && w.mac == v.mac && w.initial == v.initial && w.current == v.current
      && (if ForClient(v, d) then AddressesSaid(v, d, w) && TimesSaid(v, d, w)
          else w == v.(fields := v.fields.(typ := 0)))
    ensures Says(v, d, TypeOf(v, Some(d), stack))
  {
    ReplyIsUnderstood(v, d, stack);
    var f, opts := v.fields.(typ := 0), Receive(d.payload).value.opts;
    if ForClient(v, d) {
      MeaningIsLast(f, opts, d.ip);
      forall server: Ip | NoServerBut(opts, server)
        ensures MeaningOfAll(f, opts, d.ip).server ==
          if LastOf(opts, 54).Some? && (f.server == [0, 0, 0, 0] || f.server == d.ip) then server else f.server
      {
        ServerIsBelieved(f, opts, d.ip, server);
      }
      ServerIsKept(f, opts, d.ip);
    }
  }

  /** One pass that found a well-formed message `d`. */
  ghost predicate Obeyed(a: Moment, d: Datagram, b: Moment)
    requires WellFormed(d)
  {
    && (if ForClient(a.view, d) then
          AddressesSaid(a.view, d, b.view) && (b.state != Leased ==> TimesSaid(a.view, d, b.view))
        else
          b.view == a.view.(fields := a.view.fields.(typ := 0)))
    && (forall typ: byte :: Says(a.view, d, typ) ==>
          && b.state == (
             if typ == 255 then Start
             else if a.state == Discover then (if typ == 2 then Request else Discover)
             else if typ == 5 then Leased else if typ == 6 then Start else Request)
          && (if a.state == Discover && typ == 2 then b.view.current == Receive(d.payload).value.xid
              else b.view.current == a.view.current && b.outbox == a.outbox))
  }

  /** Every pass of a run that finds one obeys it. */
  lemma RunObeys(env: Environment, timeout: u32, responseTimeout: u32, run: Run, i: nat)
    requires run.Valid(env, timeout, responseTimeout) && i < |run.gots|
    requires run.gots[i].Some? && WellFormed(run.gots[i].value)
    ensures run.moments[i].state in {Discover, Request}
    ensures Obeyed(run.moments[i], run.gots[i].value, run.moments[i + 1])
  {
    assert run.Goes(env, timeout, responseTimeout, i);
    var startTime := Millis(run.moments[0].now);
    PassObeys(env, responseTimeout, startTime, run.moments[i], run.gots[i].value, run.moments[i + 1]);
  }

  lemma PassObeys(env: Environment, timeout: u32, startTime: u32, a: Moment, d: Datagram, b: Moment)
    requires Follows(env, timeout, startTime, a, Some(d), b) && WellFormed(d)
    ensures a.state in {Discover, Request} && Obeyed(a, d, b)
  {
    HeardIsSaid(a.view, d, env.stack);
    ReplyIsUnderstood(a.view, d, env.stack);
    var t := TypeOf(a.view, Some(d), env.stack);
    forall typ: byte | Says(a.view, d, typ) ensures typ == t {
      assert [typ] == [t] ==> typ == t;
    }
  }

  /** A wait in which nothing came lasts longer than the response time and starts over. */
  lemma SilenceStartsOver(env: Environment, timeout: u32, startTime: u32, a: Moment, b: Moment)
    requires Follows(env, timeout, startTime, a, None, b) && a.state in {Discover, Request}
    ensures b.state == Start && b.view == a.view && b.outbox == a.outbox
    ensures b.now - a.now > timeout + env.pause(a.passes)
  {
  }

  // ----- Leases -----

  /** A lease as the acknowledgement `d` says, with 900 s, half of it and twice that half for
      times it leaves out or gives as zero; both countdowns are started. */
  ghost predicate LeaseSaid(v: View, d: Datagram, m: Moment)
    requires WellFormed(d)
  {
    var opts, f := Receive(d.payload).value.opts, m.view.fields;
    var lease := Number(opts, 51, v.fields.leaseTime);
    var t1, t2 := Number(opts, 58, v.fields.t1), Number(opts, 59, v.fields.t2);
    && ForClient(v, d) && Says(v, d, 5) && AddressesSaid(v, d, m.view)
    && f.leaseTime == (if lease == 0 then 900 else lease)
    && f.t1 == (if t1 == 0 then f.leaseTime / 2 else t1)
    && f.t2 == (if t2 == 0 then f.t1 * 2 % 0x1_0000_0000 else t2)
    && f.renewInSec == Signed32(f.t1) && m.rebindInSec == Signed32(f.t2)
  }

  lemma GrantedIsSaid(env: Environment, d: Datagram, seen: View, m: Moment)
    requires Granted(env, Some(d), seen, m) && WellFormed(d)
    ensures LeaseSaid(seen, d, m)
  {
    HeardIsSaid(seen, d, env.stack);
    ReplyIsUnderstood(seen, d, env.stack);
  }

  /** What the client holds at `m` is what a datagram polled since number `from` says. */
  ghost predicate HeldAsSaid(env: Environment, from: nat, m: Moment) {
    exists i, seen :: SaidAt(env, from, i, seen, m)
  }

  ghost predicate SaidAt(env: Environment, from: nat, i: nat, seen: View, m: Moment) {
    && from <= i < m.polls && env.arrivals(i).Some?
    && seen.mac == m.view.mac && seen.initial == m.view.initial && seen.current <= m.view.current
    && (WellFormed(env.arrivals(i).value) ==> LeaseSaid(seen, env.arrivals(i).value, m))
  }

  lemma HeldIsSaid(env: Environment, from: nat, m: Moment)
    requires Holds(env, from, m)
    ensures HeldAsSaid(env, from, m)
  {
    var i, seen :| HoldsFrom(env, from, i, seen, m);
    var d := env.arrivals(i).value;
    if WellFormed(d) { GrantedIsSaid(env, d, seen, m); }
    assert SaidAt(env, from, i, seen, m);
  }

  lemma OutcomeIsSaid(env: Environment, timeout: u32, responseTimeout: u32, n: nat,
                      start: Moment, result: int, end: Moment)
    requires Outcome(env, timeout, responseTimeout, n, start, result, end)
    ensures result == 1 ==> HeldAsSaid(env, start.polls, end)
  {
    ResultIsSaid(env, env.socketFree(n), start, result, end);
  }

  /** A run that `Led` from `start` under a fresh id: what it leads to, and what is held. */
  lemma RunIsSaid(env: Environment, timeout: u32, responseTimeout: u32, n: nat, run: Run,
                  start: Moment, a: Moment, result: int, end: Moment)
    requires start.state in {Start, Rerequest} && env.socketFree(n)
    requires a == start.(view := WithId(start.view, env.randoms(n)))
    requires Led(env, timeout, responseTimeout, a, run, end)
    requires result == if end.state == Leased then 1 else 0
    ensures Outcome(env, timeout, responseTimeout, n, start, result, end)
    ensures result == 1 ==> HeldAsSaid(env, start.polls, end)
  {
    RunOutcome(env, timeout, responseTimeout, n, run, start, result, end);
    OutcomeIsSaid(env, timeout, responseTimeout, n, start, result, end);
  }

  lemma ResultIsSaid(env: Environment, free: bool, start: Moment, result: int, end: Moment)
    requires Result(env, free, start, result, end)
    ensures result == 1 ==> HeldAsSaid(env, start.polls, end)
  {
    if result == 1 { HeldIsSaid(env, start.polls, end); }
  }

  /** A rebinding begins in START, with all five addresses zero and all else as it was. */
  lemma RebindingStartsAtZero(m: Moment)
    ensures var n, zero := Unbound(m), [0, 0, 0, 0];
      && n.state == Start && n.view.localIp == zero
      && n.view.fields == Fields(m.view.fields.typ, zero, zero, zero, zero, m.view.fields.leaseTime,
                                 m.view.fields.t1, m.view.fields.t2, m.view.fields.renewInSec)
      && n == m.(state := Start, view := m.view.(localIp := zero, fields := n.view.fields))
  {
  }

  // ----- Messages sent -----

  /** The seconds field is the true time since the exchange began, in 16 bits. */
  lemma SecondsAreTrue(begun: nat, now: nat)
    requires begun <= now < begun + 0x1_0000_0000
    ensures SecondsAt(now, Millis(begun)) == (now - begun) / 1000 % 0x1_0000
  {
    Elapsed(begun, now);
  }

  predicate HasIf(has: bool, opts: seq<Opt>, code: byte, data: seq<byte>) {
    LastOf(opts, code) == if has then Some(data) else None
  }

  /** What a server reads in a message of a client that knows `v`, `age` ms into its exchange. */
  ghost predicate IsRead(s: seq<byte>, v: View, typ: byte, age: nat) {
    && Receive(s).Some? && s[236..240] == [99, 130, 83, 99]
    && var r := Receive(s).value;
      && r.op == 1 && r.xid == v.current && r.secs == age / 1000 % 0x1_0000 && r.chaddr[..6] == v.mac
      && LastOf(r.opts, 53) == Some([typ]) && LastOf(r.opts, 61) == Some([1] + v.mac)
      && LastOf(r.opts, 55) == Some([1, 3, 6, 15, 58, 59])
      && LastOf(r.opts, 12).Some? && [87, 73, 90, 110, 101, 116] <= LastOf(r.opts, 12).value
      && HasIf(typ == 3, r.opts, 50, v.localIp) && HasIf(typ == 3, r.opts, 54, v.fields.server)
  }

  lemma SentIsRead(v: View, typ: byte, begun: nat, now: nat)
    requires begun <= now < begun + 0x1_0000_0000
    ensures IsRead(Sent(v, typ, now, Millis(begun)), v, typ, now - begun)
  {
    SecondsAreTrue(begun, now);
    var m := Outgoing(typ, v.current, SecondsAt(now, Millis(begun)), v.mac, v.localIp, v.fields.server);
    RoundTrip(m);
    OptionsByNumber(m);
    assert HostName(m.mac)[..6] == [87, 73, 90, 110, 101, 116];
  }

  /** One message went out, of that type. */
  ghost predicate WroteOne(a: Moment, b: Moment, typ: byte, begun: nat)
    requires begun <= b.now
  {
    && |b.outbox| == |a.outbox| + 1 && a.outbox <= b.outbox
    && IsRead(b.outbox[|b.outbox| - 1], b.view, typ, b.now - begun)
  }

  /** A pass sends DISCOVER from START and REQUEST from REREQUEST, both under the next id,
      and REQUEST on the way from DISCOVER to REQUEST; otherwise it sends nothing. */
  lemma PassWrites(env: Environment, timeout: u32, begun: nat, a: Moment, got: Option<Datagram>, b: Moment)
    requires Follows(env, timeout, Millis(begun), a, got, b) && begun <= b.now < begun + 0x1_0000_0000
    ensures a.state == Start ==> b.state == Discover && WroteOne(a, b, 1, begun)
    ensures a.state == Rerequest ==> b.state == Request && WroteOne(a, b, 3, begun)
    ensures a.state in {Start, Rerequest} ==> b.view == a.view.(current := (a.view.current + 1) % 0x1_0000_0000)
    ensures a.state == Discover && b.state == Request ==> WroteOne(a, b, 3, begun)
    ensures a.state == Request || (a.state == Discover && b.state != Request) ==> b.outbox == a.outbox
  {
    if a.state == Start {
      MessageWritten(begun, a, b, 1);
    } else if a.state == Rerequest || (a.state == Discover && b.state == Request) {
      MessageWritten(begun, a, b, 3);
    }
  }

  lemma MessageWritten(begun: nat, a: Moment, b: Moment, typ: byte)
    requires b.outbox == a.outbox + [Sent(b.view, typ, b.now, Millis(begun))]
    requires begun <= b.now < begun + 0x1_0000_0000
    ensures WroteOne(a, b, typ, begun)
  {
    SentIsRead(b.view, typ, begun, b.now);
  }

  lemma OptionsByNumber(m: Outgoing)
    ensures var opts := OptionsOf(m);
      && LastOf(opts, 53) == Some([m.typ]) && LastOf(opts, 61) == Some([1] + m.mac)
      && LastOf(opts, 55) == Some([1, 3, 6, 15, 58, 59]) && LastOf(opts, 12) == Some(HostName(m.mac))
      && HasIf(m.typ == 3, opts, 50, m.localIp) && HasIf(m.typ == 3, opts, 54, m.server)
  {
    OptionFound(m, 53);
    OptionFound(m, 61);
    OptionFound(m, 55);
    OptionFound(m, 12);
    OptionFound(m, 50);
    OptionFound(m, 54);
  }

  /** The options of a message in order, from the back. */
  lemma OptionFound(m: Outgoing, code: byte)
    ensures var opts := OptionsOf(m);
      var last := opts[|opts| - 1];
      LastOf(opts, code) ==
        if last.code == code then Some(last.data)
        else if m.typ == 3 && opts[4].code == code then Some(opts[4].data)
        else if m.typ == 3 && opts[3].code == code then Some(opts[3].data)
        else LastOf([opts[0], opts[1], opts[2]], code)
    ensures var opts := OptionsOf(m);
      LastOf([opts[0], opts[1], opts[2]], code) ==
        if opts[2].code == code then Some(opts[2].data) else if opts[1].code == code then Some(opts[1].data)
        else if opts[0].code == code then Some(opts[0].data) else None
  {
    var opts := OptionsOf(m);
    var last := opts[|opts| - 1];
    assert opts[..3] == [opts[0], opts[1], opts[2]];
    FirstThree(opts[0], opts[1], opts[2], code);
    if m.typ == 3 {
      LastOfSnoc(opts[..3], opts[3], code);
      LastOfSnoc(opts[..4], opts[4], code);
      LastOfSnoc(opts[..5], last, code);
      assert opts[..3] + [opts[3]] == opts[..4] && opts[..4] + [opts[4]] == opts[..5] && opts[..5] + [last] == opts;
    } else {
      LastOfSnoc(opts[..3], last, code);
      assert opts[..3] + [last] == opts;
    }
  }

  lemma LastOfSnoc(init: seq<Opt>, o: Opt, code: byte)
    ensures LastOf(init + [o], code) == if o.code == code then Some(o.data) else LastOf(init, code)
  {
    assert (init + [o])[..|init|] == init;
  }

  lemma FirstThree(a: Opt, b: Opt, c: Opt, code: byte)
    ensures LastOf([a, b, c], code) ==
      if c.code == code then Some(c.data) else if b.code == code then Some(b.data)
      else if a.code == code then Some(a.data) else None
  {
    LastOfSnoc([], a, code);
    LastOfSnoc([a], b, code);
    LastOfSnoc([a, b], c, code);
    assert [] + [a] == [a] && [a] + [b] == [a, b] && [a, b] + [c] == [a, b, c];
  }
}
