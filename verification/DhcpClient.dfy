/** The DHCP client: message exchange, lease acquisition and lease maintenance.
    Datagrams, the passing of time and random numbers come from the environment;
    the contracts hold for all of them. */
module DhcpClient {
  import opened Words
  import opened Wrappers
  import opened UdpChip
  import opened PacketReader
  import opened DhcpOptions
  import opened DhcpMessage
  import opened LeaseClock
  import opened DhcpExchange
  import opened DhcpMeaning

  class DhcpClient {
    const env: Environment
    const udp: Reader
    const timeout: u32
    const responseTimeout: u32

    var initialTransactionId: u32
    var transactionId: u32
    var mac: Mac
    var localIp: Ip
    var subnetMask: Ip
    var gateway: Ip
    var server: Ip
    var dns: Ip
    var leaseTime: u32
    var t1: u32
    var t2: u32
    var renewInSec: int
    var rebindInSec: int
    var lastCheck: u32
    var secTimeout: u32
    var state: State

    /** True time, and how far the environment's scripts have been used. */
    var now: nat
    var polls: nat
    var passes: nat
    var requests: nat

    /** The packet being built, and the datagrams broadcast so far. */
    var packet: seq<byte>
    var outbox: seq<seq<byte>>

    constructor (env: Environment, mac: Mac, timeout: u32, responseTimeout: u32, now: nat)
      ensures this.env == env && this.timeout == timeout && this.responseTimeout == responseTimeout
      ensures fresh(udp) && state == Start && this.mac == mac && this.now == now && outbox == []
    {
      this.env, this.timeout, this.responseTimeout := env, timeout, responseTimeout;
      this.mac, this.now := mac, now;
      udp := new Reader();
      state, lastCheck, secTimeout, leaseTime, t1, t2 := Start, 0, 0, 0, 0, 0;
      renewInSec, rebindInSec, initialTransactionId, transactionId := 0, 0, 0, 0;
      localIp, subnetMask, gateway, server, dns :=
        [0, 0, 0, 0], [0, 0, 0, 0], [0, 0, 0, 0], [0, 0, 0, 0], [0, 0, 0, 0];
      polls, passes, requests, packet, outbox := 0, 0, 0, [], [];
    }

    ghost function Learned(typ: byte): Fields
      reads this
    {
      Fields(typ, subnetMask, gateway, server, dns, leaseTime, t1, t2, renewInSec)
    }

    ghost function Knows(): View
      reads this
    {
      View(initialTransactionId, transactionId, mac, localIp, Learned(0))
    }

    ghost function Here(): Moment
      reads this
    {
      Moment(state, Knows(), rebindInSec, now, polls, passes, outbox)
    }

    // ----- Reading a reply -----

    /** Four bytes read over a `uint32_t`, then `ntohl`. */
    method ReadWord(value: u32) returns (word: u32)
      modifies udp`rest
      ensures word == Word(value, old(udp.rest)) && udp.rest == Skip(old(udp.rest), 4)
    {
      var bytes := udp.ReadOver(Le32(value));
      word := FromBe32(bytes);
    }

    /** The first address of a list of `optLen` bytes; the others are skipped. */
    method ReadFirst(address: Ip, optLen: byte) returns (first: Ip)
      modifies udp`rest
      ensures first == Over(address, old(udp.rest)) && udp.rest == Skip(old(udp.rest), Max(4, optLen))
    {
      first := udp.ReadOver(address);
      var len: int := optLen;
      udp.Discard(Max(0, len - 4));
      SkipSkip(old(udp.rest), 4, Max(0, len - 4));
    }

    /** One pass of the option loop. */
    method ParseOption(typ0: byte) returns (typ: byte)
      requires udp.rest != []
      modifies this`subnetMask, this`gateway, this`server, this`dns, this`leaseTime,
               this`t1, this`t2, this`renewInSec, udp`rest
      ensures (Learned(typ), udp.rest) == Step(old(Learned(typ0)), old(udp.rest), udp.remoteIp)
    {
      typ := typ0;
      var code := udp.ReadByte();
      if code == END || code == PAD { return; }
      var optLen := udp.ReadByte();
      if code == MESSAGE_TYPE {
        typ := udp.ReadByte();
      } else if code == SUBNET_MASK {
        subnetMask := udp.ReadOver(subnetMask);
      } else if code == ROUTERS {
        gateway := ReadFirst(gateway, optLen);
      } else if code == DNS {
        dns := ReadFirst(dns, optLen);
      } else if code == SERVER_ID {
        if server == [0, 0, 0, 0] || server == udp.remoteIp {
          server := udp.ReadOver(server);
        } else {
          udp.Discard(optLen);
        }
      } else if code == T1_VALUE {
        t1 := ReadWord(t1);
      } else if code == T2_VALUE {
        t2 := ReadWord(t2);
      } else if code == LEASE_TIME {
        leaseTime := ReadWord(leaseTime);
        renewInSec := Signed32(leaseTime);
      } else {
        udp.Discard(optLen);
      }
    }

    /** The option loop ends on every byte string, with the datagram used up. */
    method ParseOptions(typ0: byte) returns (typ: byte)
      modifies this`subnetMask, this`gateway, this`server, this`dns, this`leaseTime,
               this`t1, this`t2, this`renewInSec, udp`rest
      ensures udp.rest == []
      ensures Learned(typ) == Parse(old(Learned(typ0)), old(udp.rest), udp.remoteIp)
    {
      typ := typ0;
      while udp.rest != []
        invariant Parse(Learned(typ), udp.rest, udp.remoteIp) == Parse(old(Learned(typ0)), old(udp.rest), udp.remoteIp)
        decreases |udp.rest|
      {
        typ := ParseOption(typ);
      }
    }

    /** `parsePacket` in a loop: a datagram that is not empty, or none when the
        response time is over.  The comparison survives a wrap of the clock. */
    method AwaitPacket() returns (got: Option<Datagram>)
      requires responseTimeout + 50 < 0x1_0000_0000
      modifies this`now, this`polls, udp
      ensures old(now) <= now <= old(now) + responseTimeout + 50
      ensures Waited(env.arrivals, responseTimeout, got, old(polls), old(now), polls, now)
      ensures got.Some? ==>
        udp.rest == got.value.payload && udp.remoteIp == got.value.ip && udp.remotePort == got.value.port
    {
      var startTime := Millis(now);
      while true
        invariant old(now) <= now <= old(now) + responseTimeout + 50
        invariant old(polls) <= polls && now == old(now) + 50 * (polls - old(polls))
        invariant Silent(env.arrivals, old(polls), polls)
        decreases old(now) + responseTimeout + 50 - now
      {
        got := env.arrivals(polls);
        polls := polls + 1;
        if got.Some? && got.value.payload != [] {
          udp.Open(got.value);
          return;
        }
        got := None;
        Elapsed(old(now), now);
        if Wrap32(Millis(now) - startTime) > responseTimeout { return; }
        now := now + 50;
      }
    }

    /** `parseDHCPResponse`: the message type, 255 when nothing came in time; a reply
        that is not for us has type 0 and changes nothing. */
    method ParseResponse(respId0: u32) returns (typ: byte, respId: u32, ghost got: Option<Datagram>)
      requires responseTimeout + 50 < 0x1_0000_0000
      modifies this`now, this`polls, this`localIp, this`subnetMask, this`gateway, this`server, this`dns,
               this`leaseTime, this`t1, this`t2, this`renewInSec, udp
      ensures old(now) <= now <= old(now) + responseTimeout + 50
      ensures Waited(env.arrivals, responseTimeout, got, old(polls), old(now), polls, now)
      ensures got.Some? ==> udp.rest == []
      ensures got.Some? ==> (localIp, Learned(typ)) == Learn(old(Knows()), got.value, env.stack)
      ensures typ == TypeOf(old(Knows()), got, env.stack) && Knows() == Heard(old(Knows()), got, env.stack)
      ensures got.Some? && ForUs(old(Knows()), got.value, env.stack) ==> respId == ReplyId(got.value, env.stack)
      ensures got.Some? && !ForUs(old(Knows()), got.value, env.stack) ==> typ == 0
      ensures typ in {OFFER, ACK, NAK} ==>
        got.Some? && IsReply(old(Knows()), got.value, env.stack, typ) && initialTransactionId <= respId <= transactionId
    {
      var packet := AwaitPacket();
      got := packet;
      if packet.None? {
        return 255, respId0, None;
      }
      typ, respId := ReadReply(respId0, got.value);
    }

    /** The part of `parseDHCPResponse` behind the waiting loop. */
    method ReadReply(respId0: u32, ghost d: Datagram) returns (typ: byte, respId: u32)
      requires udp.rest == d.payload && udp.remoteIp == d.ip && udp.remotePort == d.port
      modifies this`localIp, this`subnetMask, this`gateway, this`server, this`dns,
               this`leaseTime, this`t1, this`t2, this`renewInSec, udp`rest
      ensures udp.rest == []
      ensures (localIp, Learned(typ)) == Learn(old(Knows()), d, env.stack)
      ensures ForUs(old(Knows()), d, env.stack) ==> respId == ReplyId(d, env.stack)
      ensures !ForUs(old(Knows()), d, env.stack) ==> typ == 0
    {
      typ, respId := 0, respId0;
      var fixed := udp.ReadOver(env.stack);
      if fixed[0] == BOOTREPLY && udp.remotePort == SERVER_PORT {
        respId := FromBe32(fixed[4..8]);
        if fixed[28..34] != mac || respId < initialTransactionId || respId > transactionId {
          udp.Flush();
          return;
        }
        localIp := fixed[16..20];
        udp.Discard(240 - 34);
        SkipFixedPart(d.payload);
        typ := ParseOptions(0);
      }
      udp.Flush();
    }

    // ----- Acquiring a lease -----

    /** The response and lease timeouts leave room for the clock arithmetic. */
    ghost predicate Configured() {
      env.Sane() && timeout + responseTimeout + 50 + env.longest < 0x1_0000_0000
    }

    ghost function PassLimit(): nat { LongestPass(env, responseTimeout) }

    function SecondsSince(startTime: u32): u16
      reads this
    {
      SecondsAt(now, startTime)
    }

    method Discovering(startTime: u32) returns (messageType: byte, ghost offer: Option<Datagram>)
      requires Configured() && initialTransactionId <= transactionId && state == Discover
      modifies this`now, this`polls, this`localIp, this`subnetMask, this`gateway, this`server, this`dns,
               this`leaseTime, this`t1, this`t2, this`renewInSec, this`transactionId, this`state,
               this`packet, this`outbox, udp
      ensures old(now) <= now <= old(now) + responseTimeout + 50
      ensures initialTransactionId <= transactionId <= old(transactionId)
      ensures Waited(env.arrivals, responseTimeout, offer, old(polls), old(now), polls, now)
      ensures messageType == TypeOf(old(Knows()), offer, env.stack)
      ensures Listened(env, responseTimeout, startTime, old(Here()), old(now), offer, Here())
      ensures state == if messageType == OFFER then Request else Discover
      ensures state == Request ==>
        && offer.Some? && IsReply(old(Knows()), offer.value, env.stack, OFFER)
        && transactionId == ReplyId(offer.value, env.stack)
        && outbox == old(outbox) + [Sent(Knows(), REQUEST, now, startTime)]
      ensures state == Discover ==> outbox == old(outbox) && transactionId == old(transactionId)
    {
      var unset: u32 := *;
      var respId;
      messageType, respId, offer := ParseResponse(unset);
      if messageType == OFFER {
        AcceptOffer(respId, startTime);
      }
    }

    /** The request carries the transaction id the offer came with. */
    method AcceptOffer(respId: u32, startTime: u32)
      modifies this`transactionId, this`state, this`packet, this`outbox
      ensures Knows() == old(Knows()).(current := respId) && state == Request
      ensures outbox == old(outbox) + [Sent(Knows(), REQUEST, now, startTime)]
    {
      transactionId := respId;
      SendMessage(REQUEST, SecondsSince(startTime));
      state := Request;
    }

    /** Lease values on acknowledgement. */
    method Acknowledge()
      modifies this`leaseTime, this`t1, this`t2, this`renewInSec, this`rebindInSec
      ensures (leaseTime, t1, t2) == Defaults(old(leaseTime), old(t1), old(t2))
      ensures renewInSec == Signed32(t1) && rebindInSec == Signed32(t2)
      ensures Knows() == Bound(old(Knows()))
    {
      if leaseTime == 0 {
        leaseTime := DEFAULT_LEASE;
      }
      if t1 == 0 {
        t1 := leaseTime / 2;
      }
      if t2 == 0 {
        t2 := Wrap32(t1 * 2);
      }
      renewInSec := Signed32(t1);
      rebindInSec := Signed32(t2);
    }

    method Requesting(ghost startTime: u32) returns (messageType: byte, result: int, ghost ack: Option<Datagram>)
      requires Configured() && initialTransactionId <= transactionId && state == Request
      modifies this`now, this`polls, this`localIp, this`subnetMask, this`gateway, this`server, this`dns,
               this`leaseTime, this`t1, this`t2, this`renewInSec, this`rebindInSec, this`state, udp
      ensures old(now) <= now <= old(now) + responseTimeout + 50
      ensures Waited(env.arrivals, responseTimeout, ack, old(polls), old(now), polls, now)
      ensures messageType == TypeOf(old(Knows()), ack, env.stack)
      ensures Listened(env, responseTimeout, startTime, old(Here()), old(now), ack, Here())
      ensures state == if messageType == ACK then Leased else if messageType == NAK then Start else Request
      ensures result in {0, 1} && (result == 1 <==> state == Leased)
    {
      var unset: u32 := *;
      var respId;
      messageType, respId, ack := ParseResponse(unset);
      result := Decide(messageType);
    }

    /** What follows a reply in REQUEST. */
    method Decide(messageType: byte) returns (result: int)
      requires state == Request
      modifies this`leaseTime, this`t1, this`t2, this`renewInSec, this`rebindInSec, this`state
      ensures state == if messageType == ACK then Leased else if messageType == NAK then Start else Request
      ensures result == if messageType == ACK then 1 else 0
      ensures Knows() == if messageType == ACK then Bound(old(Knows())) else old(Knows())
      ensures rebindInSec == if messageType == ACK then Signed32(t2) else old(rebindInSec)
    {
      result := 0;
      if messageType == ACK {
        state := Leased;
        result := 1;
        Acknowledge();
      } else if messageType == NAK {
        state := Start;
      }
    }

    /** A message under a fresh transaction id. */
    method Transmit(typ: byte, startTime: u32)
      requires transactionId < 0xFFFF_FFFF
      modifies this`transactionId, this`packet, this`outbox
      ensures Knows() == old(Knows()).(current := old(transactionId) + 1)
      ensures outbox == old(outbox) + [Sent(Knows(), typ, now, startTime)]
    {
      transactionId := transactionId + 1;
      SendMessage(typ, SecondsSince(startTime));
    }

    /** The pass that found moment `a` has begun: its time has gone by. */
    ghost predicate Begun(a: Moment)
      reads this
    {
      Here() == a.(now := a.now + env.pause(a.passes), passes := a.passes + 1)
    }

    /** The passes that only send. */
    method Ask(startTime: u32, ghost a: Moment)
      requires state in {Start, Rerequest} && transactionId < 0xFFFF_FFFF && Begun(a)
      modifies this`transactionId, this`state, this`packet, this`outbox
      ensures transactionId == old(transactionId) + 1 && state != Leased
      ensures Follows(env, responseTimeout, startTime, a, None, Here())
    {
      if state == Start {
        Transmit(DISCOVER, startTime);
        state := Discover;
      } else if state == Rerequest {
        Transmit(REQUEST, startTime);
        state := Request;
      }
      SpokeFollows(env, responseTimeout, startTime, a, Here());
    }

    /** The passes that wait. */
    method Listen(startTime: u32, ghost a: Moment) returns (messageType: byte, result: int, ghost got: Option<Datagram>)
      requires Configured() && initialTransactionId <= transactionId && state in {Discover, Request} && Begun(a)
      modifies this`now, this`polls, this`localIp, this`subnetMask, this`gateway, this`server, this`dns,
               this`leaseTime, this`t1, this`t2, this`renewInSec, this`rebindInSec, this`transactionId, this`state,
               this`packet, this`outbox, udp
      ensures old(now) <= now <= old(now) + responseTimeout + 50
      ensures initialTransactionId <= transactionId <= old(transactionId)
      ensures messageType == 255 ==> result == 0
      ensures Follows(env, responseTimeout, startTime, a, got,
                      if messageType == 255 then Here().(state := Start) else Here())
      ensures result in {0, 1} && (result == 1 <==> state == Leased)
    {
      result := 0;
      if state == Discover {
        messageType, got := Discovering(startTime);
      } else {
        messageType, result, got := Requesting(startTime);
      }
      ListenedFollows(env, responseTimeout, startTime, a, got, messageType, Here());
    }

    /** One pass of the request loop: send, or wait for a reply and follow it.  A 255
        never gets past its end. */
    method Pass(messageType0: byte, startTime: u32)
      returns (messageType: byte, result: int, ghost got: Option<Datagram>)
      requires Configured() && state != Leased && messageType0 != 255
      requires initialTransactionId <= transactionId < 0xFFFF_FFFF
      modifies this`now, this`polls, this`passes, this`localIp, this`subnetMask, this`gateway, this`server, this`dns,
               this`leaseTime, this`t1, this`t2, this`renewInSec, this`rebindInSec, this`transactionId, this`state,
               this`packet, this`outbox, udp
      ensures old(now) < now <= old(now) + PassLimit()
      ensures messageType != 255
      ensures initialTransactionId <= transactionId
      ensures Follows(env, responseTimeout, startTime, old(Here()), got, Here())
      ensures if old(state) in {Start, Rerequest} then transactionId == old(transactionId) + 1
              else transactionId <= old(transactionId)
      ensures result in {0, 1} && (result == 1 <==> state == Leased)
    {
      messageType, result, got := Act(messageType0, startTime);
      if messageType == 255 {
        messageType := 0;
        state := Start;
      }
    }

    /** The pass up to the check for 255. */
    method Act(messageType0: byte, startTime: u32)
      returns (messageType: byte, result: int, ghost got: Option<Datagram>)
      requires Configured() && state != Leased && messageType0 != 255
      requires initialTransactionId <= transactionId < 0xFFFF_FFFF
      modifies this`now, this`polls, this`passes, this`localIp, this`subnetMask, this`gateway, this`server, this`dns,
               this`leaseTime, this`t1, this`t2, this`renewInSec, this`rebindInSec, this`transactionId, this`state,
               this`packet, this`outbox, udp
      ensures old(now) < now <= old(now) + PassLimit()
      ensures initialTransactionId <= transactionId
      ensures Follows(env, responseTimeout, startTime, old(Here()), got,
                      if messageType == 255 then Here().(state := Start) else Here())
      ensures if old(state) in {Start, Rerequest} then transactionId == old(transactionId) + 1
              else transactionId <= old(transactionId)
      ensures messageType == 255 ==> result == 0
      ensures result in {0, 1} && (result == 1 <==> state == Leased)
    {
      messageType, result, got := messageType0, 0, None;
      ghost var a := Here();
      now, passes := now + env.pause(passes), passes + 1;
      if state == Start || state == Rerequest {
        Ask(startTime, a);
      } else {
        messageType, result, got := Listen(startTime, a);
      }
    }

    /** `request_DHCP_lease`.  With a free socket it runs the exchange, pass by pass as
        `Follows` says; it succeeds exactly if some wait in REQUEST finds an ACK for the
        client, from the server port, with its hardware address and a transaction id of
        this exchange, and then holds what that says; it gives up only when the time is
        over.  It ends in bounded time, whatever arrives and wherever the clock wraps;
        transaction ids never wrap. */
    method RequestLease() returns (result: int, ghost run: Run)
      requires Configured() && state in {Start, Rerequest}
      modifies this`now, this`polls, this`passes, this`requests, this`localIp, this`subnetMask, this`gateway,
               this`server, this`dns, this`leaseTime, this`t1, this`t2, this`renewInSec, this`rebindInSec,
               this`initialTransactionId, this`transactionId, this`state, this`packet, this`outbox, udp
      ensures requests == old(requests) + 1
      ensures 1 <= initialTransactionId <= transactionId
      ensures Outcome(env, timeout, responseTimeout, old(requests), old(Here()), result, Here())
      ensures result == 1 ==> HeldAsSaid(env, old(polls), Here())
      ensures env.socketFree(old(requests)) ==>
        var start := old(Here()).(view := WithId(old(Knows()), env.randoms(old(requests))));
        Led(env, timeout, responseTimeout, start, run, Here())
    {
      transactionId := env.randoms(requests);
      initialTransactionId := transactionId;
      requests := requests + 1;
      run, result := Run([Here()], []), 0;
      if !env.socketFree(requests - 1) { return; }
      result, run := Complete(old(Here()));
    }

    /** The socket is given up, and the transaction id used up. */
    method Finish(ghost m: Moment)
      requires transactionId < 0xFFFF_FFFF && Here() == m
      modifies this`transactionId, udp
      ensures transactionId == m.view.current + 1 && Here() == m.(view := m.view.(current := transactionId))
    {
      udp.Flush();
      transactionId := transactionId + 1;
    }

    /** The exchange on a free socket, begun as at `a` but for the transaction id. */
    method Complete(ghost a: Moment) returns (result: int, ghost run: Run)
      requires Configured() && state in {Start, Rerequest} && requests > 0 && env.socketFree(requests - 1)
      requires Here() == a.(view := WithId(a.view, env.randoms(requests - 1)))
      modifies this`now, this`polls, this`passes, this`localIp, this`subnetMask, this`gateway,
               this`server, this`dns, this`leaseTime, this`t1, this`t2, this`renewInSec, this`rebindInSec,
               this`transactionId, this`state, this`packet, this`outbox, udp
      ensures 1 <= initialTransactionId <= transactionId
      ensures Outcome(env, timeout, responseTimeout, requests - 1, a, result, Here())
      ensures result == 1 ==> HeldAsSaid(env, a.polls, Here())
      ensures Led(env, timeout, responseTimeout, old(Here()), run, Here())
    {
      ghost var start, n := Here(), requests - 1;
      assert start.view == WithId(a.view, env.randoms(n));
      assert start.view.initial == start.view.current == env.randoms(n);
      result, run := Lead();
      ghost var end := Here();
      RunIsSaid(env, timeout, responseTimeout, n, run, a, start, result, end);
    }

    /** The loop and what comes behind it. */
    method Lead() returns (result: int, ghost run: Run)
      requires Configured() && state in {Start, Rerequest}
      requires transactionId == initialTransactionId && 1 <= initialTransactionId < 2000
      modifies this`now, this`polls, this`passes, this`localIp, this`subnetMask, this`gateway,
               this`server, this`dns, this`leaseTime, this`t1, this`t2, this`renewInSec, this`rebindInSec,
               this`transactionId, this`state, this`packet, this`outbox, udp
      ensures 1 <= initialTransactionId <= transactionId
      ensures Led(env, timeout, responseTimeout, old(Here()), run, Here())
      ensures result == if state == Leased then 1 else 0
    {
      result, run := Exchange();
      Finish(run.Last());
    }

    /** A pass as part of a run. */
    method PassOf(ghost run0: Run, messageType0: byte, startTime: u32)
      returns (messageType: byte, result: int, ghost run: Run)
      requires Configured() && state != Leased && messageType0 != 255
      requires initialTransactionId <= transactionId < 0xFFFF_FFFF
      requires run0.Valid(env, timeout, responseTimeout) && run0.Last() == Here()
      requires startTime == Millis(run0.moments[0].now)
      requires run0.gots != [] ==> now - run0.moments[0].now <= timeout
      modifies this`now, this`polls, this`passes, this`localIp, this`subnetMask, this`gateway, this`server, this`dns,
               this`leaseTime, this`t1, this`t2, this`renewInSec, this`rebindInSec, this`transactionId, this`state,
               this`packet, this`outbox, udp
      ensures old(now) < now <= old(now) + PassLimit()
      ensures messageType != 255
      ensures initialTransactionId <= transactionId
      ensures if old(state) in {Start, Rerequest} then transactionId == old(transactionId) + 1
              else transactionId <= old(transactionId)
      ensures old(state) in {Start, Rerequest} ==> state in {Discover, Request}
      ensures state != Rerequest && result in {0, 1} && (result == 1 <==> state == Leased)
      ensures run.Valid(env, timeout, responseTimeout) && run.Last() == Here()
      ensures run.moments[0] == run0.moments[0] && |run.gots| == |run0.gots| + 1
    {
      ghost var got;
      messageType, result, got := Pass(messageType0, startTime);
      FollowsKeeps(env, responseTimeout, startTime, old(Here()), got, Here());
      RunGrows(env, timeout, responseTimeout, run0, got, Here());
      run := run0.Then(got, Here());
    }

    /** The request loop itself. */
    method Exchange() returns (result: int, ghost run: Run)
      requires Configured() && state in {Start, Rerequest}
      requires transactionId == initialTransactionId && 1 <= initialTransactionId < 2000
      modifies this`now, this`polls, this`passes, this`localIp, this`subnetMask, this`gateway,
               this`server, this`dns, this`leaseTime, this`t1, this`t2, this`renewInSec, this`rebindInSec,
               this`transactionId, this`state, this`packet, this`outbox, udp
      ensures initialTransactionId <= transactionId < 0xFFFF_FFFF
      ensures Concluded(env, timeout, responseTimeout, run)
      ensures run.moments[0] == old(Here()) && run.Last() == Here()
      ensures result == if state == Leased then 1 else 0
    {
      run, result := Run([Here()], []), 0;
      var messageType: byte := 0;
      var startTime := Millis(now);
      while state != Leased
        invariant messageType != 255 && startTime == Millis(old(now))
        invariant InBounds(old(now), |run.gots|)
        invariant result in {0, 1} && (result == 1 <==> state == Leased)
        invariant run.gots != [] ==> state != Rerequest
        invariant run.Valid(env, timeout, responseTimeout)
        invariant run.moments[0] == old(Here()) && run.Last() == Here()
        decreases state != Leased, old(now) + timeout - now
      {
        messageType, result, run := PassOf(run, messageType, startTime);
        Elapsed(old(now), now);
        if result != 1 && Wrap32(Millis(now) - startTime) > timeout { break; }
      }
      LeasedIff(env, timeout, responseTimeout, run);
    }

    /** After `steps` passes of an exchange begun at time `start`: the time is not up
        unless the lease is there, and a transaction id was used up at most every
        other pass. */
    ghost predicate InBounds(start: nat, steps: nat)
      reads this
    {
      && start + steps <= now
      && now <= start + timeout + (if state == Leased then PassLimit() else 0)
      && 1 <= initialTransactionId < 2000
      && 0 <= 2 * (transactionId - initialTransactionId) <= steps + (if state in {Start, Rerequest} then 0 else 1)
    }

    /** The client holds what `ack`, an acknowledgement for it when it knew `seen`, says:
        addresses and lease times, with the countdowns started. */
    ghost predicate Granted(ack: Option<Datagram>, seen: View)
      reads this
    {
      && ack.Some? && IsReply(seen, ack.value, env.stack, ACK)
      && var held := Bound(Heard(seen, ack, env.stack));
        localIp == held.localIp && Learned(0) == held.fields && rebindInSec == Signed32(t2)
    }

    // ----- Keeping the lease -----

    /** `reset_DHCP_lease`: 20 bytes of addresses are zeroed. */
    method ResetLease()
      modifies this`localIp, this`subnetMask, this`gateway, this`server, this`dns
      ensures localIp == subnetMask == gateway == server == dns == [0, 0, 0, 0]
    {
      localIp, subnetMask, gateway, server, dns :=
        [0, 0, 0, 0], [0, 0, 0, 0], [0, 0, 0, 0], [0, 0, 0, 0], [0, 0, 0, 0];
    }

    /** The clock part of `checkLease`: the countdowns lose the seconds counted. */
    method Tick()
      modifies this`secTimeout, this`renewInSec, this`rebindInSec
      ensures var (clock, factor) := Check(Clock(lastCheck, old(secTimeout)), Millis(now));
        && secTimeout == clock.secTimeout
        && renewInSec == (if factor > 0 then Deduct(old(renewInSec), factor) else old(renewInSec))
        && rebindInSec == (if factor > 0 then Deduct(old(rebindInSec), factor) else old(rebindInSec))
      ensures Here() == old(Ticked())
    {
      var snow := Signed32(Millis(now));
      if lastCheck != 0 {
        var factor := Signed32(Wrap32(snow - Signed32(secTimeout)));
        if factor >= 0 {
          secTimeout := Wrap32(snow + 1000 - factor % 1000);
          factor := factor / 1000 + 1;
          renewInSec := if renewInSec < factor * 2 then 0 else renewInSec - factor;
          rebindInSec := if rebindInSec < factor * 2 then 0 else rebindInSec - factor;
        }
      } else {
        secTimeout := Wrap32(snow + 1000);
      }
    }

    /** Seconds left after a call of `Tick` at this moment. */
    ghost function Left(left: int): int
      reads this
    {
      var factor := Check(Clock(lastCheck, secTimeout), Millis(now)).1;
      if factor > 0 then Deduct(left, factor) else left
    }

    /** A leased client's countdown to the renewal is over. */
    method Renew() returns (rc: int)
      requires Configured() && state == Leased
      modifies this`now, this`polls, this`passes, this`requests, this`localIp, this`subnetMask, this`gateway,
               this`server, this`dns, this`leaseTime, this`t1, this`t2, this`renewInSec, this`rebindInSec,
               this`initialTransactionId, this`transactionId, this`state, this`packet, this`outbox, udp
      ensures requests == old(requests) + 1
      ensures Outcome(env, timeout, responseTimeout, old(requests), old(Here()).(state := Rerequest), rc - 1, Here())
    {
      state := Rerequest;
      ghost var run;
      rc, run := RequestLease();
      rc := 1 + rc;
    }

    method Unbind()
      modifies this`state, this`localIp, this`subnetMask, this`gateway, this`server, this`dns
      ensures Here() == Unbound(old(Here()))
    {
      state := Start;
      ResetLease();
    }

    /** The countdown to the rebinding is over: everything is asked for afresh. */
    method Rebind() returns (rc: int)
      requires Configured()
      modifies this`now, this`polls, this`passes, this`requests, this`localIp, this`subnetMask, this`gateway,
               this`server, this`dns, this`leaseTime, this`t1, this`t2, this`renewInSec, this`rebindInSec,
               this`initialTransactionId, this`transactionId, this`state, this`packet, this`outbox, udp
      ensures requests == old(requests) + 1
      ensures Outcome(env, timeout, responseTimeout, old(requests), Unbound(old(Here())), rc - 3, Here())
    {
      Unbind();
      ghost var run;
      rc, run := RequestLease();
      rc := 3 + rc;
    }

    /** This moment with the countdowns reduced. */
    ghost function Ticked(): Moment
      reads this
    {
      var v := Knows();
      Here().(view := v.(fields := v.fields.(renewInSec := Left(renewInSec))), rebindInSec := Left(rebindInSec))
    }

    /** The two branches of `checkLease`. */
    method Keep() returns (rc: int, ghost mid: Moment)
      requires Configured()
      modifies this`now, this`polls, this`passes, this`requests, this`localIp, this`subnetMask, this`gateway,
               this`server, this`dns, this`leaseTime, this`t1, this`t2, this`renewInSec, this`rebindInSec,
               this`initialTransactionId, this`transactionId, this`state, this`packet, this`outbox, udp
      ensures Kept(env, timeout, responseTimeout, old(Here()), old(requests), mid, rc, Here(), requests)
    {
      rc := 0;
      if state == Leased && renewInSec <= 0 {
        rc := Renew();
      }
      mid := Here();
      if (state == Leased || state == Start) && rebindInSec <= 0 {
        rc := Rebind();
      }
    }

    /** A countdown is over, the renewal's in LEASED or the rebinding's in LEASED or START. */
    ghost predicate Asks()
      reads this
    {
      && lastCheck != 0
      && (|| (state == Leased && Left(renewInSec) <= 0)
          || ((state == Leased || state == Start) && Left(rebindInSec) <= 0))
    }

    /** `checkLease` but for the last assignment. */
    method Reduce(ghost asks: bool) returns (rc: int, ghost mid: Moment)
      requires Configured() && asks == Asks()
      modifies this, udp
      ensures lastCheck == old(lastCheck)
      ensures secTimeout == Check(old(Clock(lastCheck, secTimeout)), old(Millis(now))).0.secTimeout
      ensures lastCheck == 0 ==> rc == 0 && Here() == old(Ticked()) && requests == old(requests)
      ensures lastCheck != 0 ==>
        && Kept(env, timeout, responseTimeout, old(Ticked()), old(requests), mid, rc, Here(), requests)
        && Told(env, old(Ticked()), old(requests), rc, Here(), requests)
      ensures rc > 0 <==> asks
    {
      rc, mid := 0, Here();
      Tick();
      if lastCheck != 0 {
        rc, mid := Keep();
        KeptTells(env, timeout, responseTimeout, old(Ticked()), old(requests), mid, rc, Here(), requests);
      }
    }

    /** `checkLease`: it asks for a new lease exactly when a running countdown is over,
        and never again once an exchange was left in the middle. */
    method CheckLease() returns (rc: int, ghost mid: Moment)
      requires Configured()
      modifies this, udp
      ensures Clock(lastCheck, secTimeout) == Check(old(Clock(lastCheck, secTimeout)), old(Millis(now))).0
      ensures old(lastCheck) == 0 ==> rc == 0 && Here() == old(Ticked()) && requests == old(requests)
      ensures old(lastCheck) != 0 ==>
        && Kept(env, timeout, responseTimeout, old(Ticked()), old(requests), mid, rc, Here(), requests)
        && Told(env, old(Ticked()), old(requests), rc, Here(), requests)
      ensures rc > 0 <==> old(Asks())
      ensures rc > 0 <==> requests > old(requests)
      ensures rc in {2, 4} ==> HeldAsSaid(env, old(polls), Here())
    {
      var now0 := Millis(now);
      rc, mid := Reduce(Asks());
      if rc in {2, 4} { HeldIsSaid(env, old(polls), Here()); }
      lastCheck := now0;
    }

    /** After call `j` the countdowns show what is left of `t1` and `t2` in true time. */
    ghost predicate Counting(times: seq<nat>, j: nat, t1: int, t2: int)
      requires j < |times|
      reads this
    {
      && CountsTrue(Clock(lastCheck, secTimeout), times, t1, renewInSec, j)
      && rebindInSec == t2 - Seconds(times[0], times[j]) && 0 < renewInSec && lastCheck == Millis(times[j])
    }

    /** Behind the first `j` calls, if none of them asked. */
    ghost predicate NotAsked(times: seq<nat>, j: nat, t1: int, t2: int)
      requires j <= |times|
      reads this
    {
      && state == Leased && 0 < t1 <= t2
      && if j == 0 then lastCheck == 0 && renewInSec == t1 && rebindInSec == t2 else Counting(times, j - 1, t1, t2)
    }

    /** Call number `j`. */
    method CallAt(times: seq<nat>, j: nat, ghost t1: int, ghost t2: int) returns (rc: int)
      requires Configured() && Schedule(times) && j < |times| && NotAsked(times, j, t1, t2)
      modifies this, udp
      ensures rc != 0 <==> RenewsAt(times, t1, j)
      ensures rc != 0 ==> requests > old(requests)
      ensures rc == 0 ==> requests == old(requests) && NotAsked(times, j + 1, t1, t2)
    {
      now := times[j];
      if j == 0 {
        StartsAfresh(Clock(lastCheck, secTimeout), now);
      } else {
        CallCountsTrue(Clock(lastCheck, secTimeout), times, t1, renewInSec, j);
      }
      ghost var mid;
      rc, mid := CheckLease();
    }

    /** The calls a sketch makes from `loop`, at these times, until one asks for a lease:
        that is the first one at which fewer seconds are left to T1, in true time, than
        have been counted since the call before. */
    method Maintain(times: seq<nat>) returns (k: nat)
      requires Configured() && lastCheck == 0 && state == Leased && 0 < renewInSec <= rebindInSec
      requires Schedule(times)
      modifies this, udp
      ensures k <= |times| && forall j :: 0 <= j < k ==> !RenewsAt(times, old(renewInSec), j)
      ensures k < |times| ==> RenewsAt(times, old(renewInSec), k) && requests > old(requests)
      ensures k == |times| ==> requests == old(requests) && state == Leased
    {
      ghost var t1, t2 := renewInSec, rebindInSec;
      k := 0;
      while k < |times|
        invariant k <= |times| && NotAsked(times, k, t1, t2) && requests == old(requests)
        invariant forall j :: 0 <= j < k ==> !RenewsAt(times, t1, j)
      {
        var rc := CallAt(times, k, t1, t2);
        if rc != 0 { return; }
        k := k + 1;
      }
    }

    // ----- Sending a message -----

    method Write(data: seq<byte>)
      modifies this`packet
      ensures packet == old(packet) + data
    {
      packet := packet + data;
    }

    ghost function Message(typ: byte, secs: u16): Outgoing
      reads this
    {
      Outgoing(typ, transactionId, secs, mac, localIp, server)
    }

    /** `send_DHCP_MESSAGE`: the buffer is filled and written piece by piece; what
        leaves is the message `Bytes` describes. */
    method SendMessage(typ: byte, secondsElapsed: u16)
      modifies this`packet, this`outbox
      ensures outbox == old(outbox) + [Bytes(old(Message(typ, secondsElapsed)))]
    {
      ghost var m := Message(typ, secondsElapsed);
      var buffer := new byte[32];
      WriteHeader(buffer, secondsElapsed, m);
      FillIdentification(buffer, typ, m);
      Write(buffer[..30]);
      WriteTail(buffer, typ, m);
      outbox := outbox + [packet];
    }

    method WriteHeader(buffer: array<byte>, secondsElapsed: u16, ghost m: Outgoing)
      requires buffer.Length == 32 && m == Message(m.typ, secondsElapsed)
      modifies buffer, this`packet
      ensures packet == Header(m)
    {
      packet := [];
      FillFixed(buffer, secondsElapsed, m);
      Write(buffer[..28]);
      Clear(buffer);
      Copy(buffer, 0, mac);
      assert buffer[..16] == HardwareAddress(m.mac);
      Write(buffer[..16]);
      WriteZeros(buffer);
    }

    method WriteTail(buffer: array<byte>, typ: byte, ghost m: Outgoing)
      requires buffer.Length == 32 && m.typ == typ && m.localIp == localIp && m.server == server
      modifies buffer, this`packet
      ensures packet == old(packet) + Tail(m)
    {
      if typ == REQUEST {
        FillAsked(buffer, m);
        Write(buffer[..12]);
      }
      Copy(buffer, 0, PARAMETERS);
      assert buffer[..9] == PARAMETERS;
      Write(buffer[..9]);
    }

    /** Operation, transaction id, seconds and flags; the addresses stay zero. */
    method FillFixed(buffer: array<byte>, secondsElapsed: u16, ghost m: Outgoing)
      requires buffer.Length == 32 && m == Message(m.typ, secondsElapsed)
      modifies buffer
      ensures buffer[..28] == Fixed(m)
    {
      Clear(buffer);
      buffer[0], buffer[1], buffer[2], buffer[3] := 1, 1, 6, 0;
      Copy(buffer, 4, Be32(transactionId));
      buffer[8], buffer[9] := Hi(secondsElapsed), Lo(secondsElapsed);
      Copy(buffer, 10, Be16(0x8000));
    }

    /** Six times 32 zeros for `sname` and `file`. */
    method WriteZeros(buffer: array<byte>)
      requires buffer.Length == 32
      modifies buffer, this`packet
      ensures packet == old(packet) + Zeros(192)
    {
      Clear(buffer);
      assert buffer[..32] == Zeros(32);
      for i := 0 to 6
        invariant packet == old(packet) + Zeros(32 * i)
        invariant buffer[..32] == Zeros(32)
      {
        Write(buffer[..32]);
        assert Zeros(32 * i) + Zeros(32) == Zeros(32 * (i + 1));
      }
    }

    /** Requested address and server identifier. */
    method FillAsked(buffer: array<byte>, ghost m: Outgoing)
      requires buffer.Length == 32 && m.localIp == localIp && m.server == server
      modifies buffer
      ensures buffer[..12] == Asked(m)
    {
      buffer[0], buffer[1] := REQUESTED_IP, 4;
      Copy(buffer, 2, localIp);
      buffer[6], buffer[7] := SERVER_ID, 4;
      Copy(buffer, 8, server);
    }

    /** Magic cookie, message type, client identifier and host name. */
    method FillIdentification(buffer: array<byte>, typ: byte, ghost m: Outgoing)
      requires buffer.Length == 32 && m.typ == typ && m.mac == mac
      modifies buffer
      ensures buffer[..30] == Identification(m)
    {
      Copy(buffer, 0, MAGIC_COOKIE);
      buffer[4], buffer[5], buffer[6] := MESSAGE_TYPE, 1, typ;
      buffer[7], buffer[8], buffer[9] := CLIENT_ID, 7, 1;
      Copy(buffer, 10, mac);
      buffer[16], buffer[17] := HOST_NAME, |NAME| + 6;
      Copy(buffer, 18, NAME + [0]);
      PrintByte(buffer, 24, mac[3]);
      PrintByte(buffer, 26, mac[4]);
      PrintByte(buffer, 28, mac[5]);
    }

    /** `printByte`: two hexadecimal digits, the last one first. */
    static method PrintByte(buf: array<byte>, at: nat, b: byte)
      requires at + 2 <= buf.Length
      modifies buf
      ensures buf[at] == HexByte(b)[0] && buf[at + 1] == HexByte(b)[1]
      ensures forall i :: 0 <= i < buf.Length && i != at && i != at + 1 ==> buf[i] == old(buf[i])
    {
      var str := at + 1;
      buf[at] := 48;
      var n := b;
      var m: int := n;
      n := n / 16;
      buf[str] := HexDigit(m - 16 * n);
      str := str - 1;
      while n > 0
        invariant at - 1 <= str <= at && n < 16
        invariant n > 0 ==> str == at && n == b / 16
        invariant buf[at + 1] == HexDigit(b % 16)
        invariant if n > 0 || str == at then buf[at] == 48 && n == b / 16 else buf[at] == HexDigit(b / 16)
        invariant forall i :: 0 <= i < buf.Length && i != at && i != at + 1 ==> buf[i] == old(buf[i])
        decreases n
      {
        m := n;
        n := n / 16;
        buf[str] := HexDigit(m - 16 * n);
        str := str - 1;
      }
    }

    /** `memset(buffer, 0, 32)`. */
    static method Clear(buffer: array<byte>)
      modifies buffer
      ensures forall i :: 0 <= i < buffer.Length ==> buffer[i] == 0
    {
      for i := 0 to buffer.Length
        invariant forall k :: 0 <= k < i ==> buffer[k] == 0
      {
        buffer[i] := 0;
      }
    }

    /** `memcpy(buffer + at, data, |data|)`. */
    static method Copy(buffer: array<byte>, at: nat, data: seq<byte>)
      requires at + |data| <= buffer.Length
      modifies buffer
      ensures forall i :: 0 <= i < buffer.Length ==>
        buffer[i] == if at <= i < at + |data| then data[i - at] else old(buffer[i])
    {
      for i := 0 to |data|
        invariant forall k :: 0 <= k < buffer.Length ==>
          buffer[k] == if at <= k < at + i then data[k - at] else old(buffer[k])
      {
        buffer[at + i] := data[i];
      }
    }
  }
}
