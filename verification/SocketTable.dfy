/** The TCP server's view of the socket table: listening sockets come and go while
    the chip changes states between any two register accesses. */
module SocketTable {
  import opened Words
  import opened Wrappers

  /** The Sn_SR values. */
  datatype Status =
    | Closed | Init | Listening | SynSent | SynRecv | Established | FinWait
    | Closing | TimeWait | CloseWait | LastAck | Udp

  /** At access `n` the chip would have socket `i` leave state `s` for the result. */
  type Moves = (nat, nat, Status) -> Status

  /** The chip never enters LISTEN and never leaves CLOSED on its own. */
  function Moved(m: Moves, n: nat, i: nat, s: Status): Status {
    var s' := m(n, i, s);
    if s == Closed || (s' == Listening && s != Listening) then s else s'
  }

  function MovedAll(m: Moves, n: nat, status: seq<Status>): (r: seq<Status>)
    ensures |r| == |status|
  {
    seq(|status|, i requires 0 <= i < |status| => Moved(m, n, i, status[i]))
  }

  predicate NoListener(status: seq<Status>, ports: seq<u16>, port: u16)
    requires |status| == |ports|
  {
    forall i :: 0 <= i < |status| && status[i] == Listening ==> ports[i] != port
  }

  /** No two sockets listen for the same port. */
  ghost predicate OneListenerPerPort(status: seq<Status>, ports: seq<u16>)
    requires |status| == |ports|
  {
    forall i, j :: 0 <= i < |status| && 0 <= j < |status| && status[i] == status[j] == Listening && ports[i] == ports[j]
      ==> i == j
  }

  /** The lowest-numbered closed socket, or the number of sockets. */
  function FirstClosed(status: seq<Status>): (k: nat)
    ensures k <= |status|
    ensures k < |status| ==> status[k] == Closed
    ensures forall i :: 0 <= i < k ==> status[i] != Closed
  {
    if status == [] || status[0] == Closed then 0 else 1 + FirstClosed(status[1..])
  }

  lemma FirstClosedIs(status: seq<Status>, k: nat)
    requires k <= |status| && (forall i :: 0 <= i < k ==> status[i] != Closed)
    requires k < |status| ==> status[k] == Closed
    ensures FirstClosed(status) == k
  {
  }

  /** The table after a server has opened a listening socket, if one was free. */
  function Opened(status: seq<Status>, ports: seq<u16>, port: u16): (seq<Status>, seq<u16>)
    requires |status| == |ports|
  {
    var k := FirstClosed(status);
    if k < |status| then (status[k := Listening], ports[k := port]) else (status, ports)
  }

  /** A second `begin` for a port breaks the invariant exactly when a socket is free. */
  lemma BeginKeepsOneListenerIff(status: seq<Status>, ports: seq<u16>, port: u16)
    requires |status| == |ports| && OneListenerPerPort(status, ports)
    ensures var (s, p) := Opened(status, ports, port);
      OneListenerPerPort(s, p) <==> NoListener(status, ports, port) || FirstClosed(status) == |status|
  {
    var k := FirstClosed(status);
    if k < |status| {
      var (s, p) := Opened(status, ports, port);
      assert s[k] == Listening && p[k] == port;
      forall i | 0 <= i < |status| && status[i] == Listening
        ensures s[i] == Listening && p[i] == ports[i] && i != k
      {
      }
    }
  }

  /** The scan of `accept` so far. */
  datatype Scan = Scan(status: seq<Status>, accesses: nat, listening: bool)

  /** One socket of the scan, registered for the port or not, whatever the chip does
      meanwhile; nothing is said of a connection found half closed. */
  function Scanned(m: Moves, registered: bool, s: Scan, i: nat): (r: Option<Scan>)
    requires i < |s.status|
    ensures r.Some? ==> |r.value.status| == |s.status|
  {
    if !registered then Some(s)
    else
      var first := MovedAll(m, s.accesses, s.status);
      if first[i] == Listening then Some(Scan(first, s.accesses + 1, true))
      else
        var second := MovedAll(m, s.accesses + 1, first);
        if second[i] == CloseWait then None else Some(Scan(second, s.accesses + 2, s.listening))
  }

  function ScannedTo(m: Moves, ports: seq<u16>, port: u16, s: Scan, n: nat): (r: Option<Scan>)
    requires n <= |s.status| == |ports|
    ensures r.Some? ==> |r.value.status| == |s.status|
  {
    if n == 0 then Some(s)
    else
      var before := ScannedTo(m, ports, port, s, n - 1);
      if before.None? then None else Scanned(m, ports[n - 1] == port, before.value, n - 1)
  }

  /** A chip that lets access number `n` find the listener and takes it at the next. */
  function TakenAfter(n: nat): Moves {
    (k: nat, i: nat, s: Status) => if k > n && s == Listening then Established else s
  }

  /** `accept` does not promise a listener against such a chip: it sees the listener of
      socket 0, the chip takes it while socket 1 is looked at, and socket 2, which is
      closed, is not opened. */
  lemma ListenerTakenDuringScan(n: nat, port: u16)
    ensures var before := Scan([Listening, Established, Closed], n, false);
      ScannedTo(TakenAfter(n), [port, port, 0], port, before, 3) ==
        if port == 0 then Some(Scan([Established, Established, Closed], n + 5, true))
        else Some(Scan([Established, Established, Closed], n + 3, true))
  {
    var m, ports := TakenAfter(n), [port, port, 0];
    var s0 := Scan([Listening, Established, Closed], n, false);
    assert MovedAll(m, n, s0.status) == s0.status;
    var s1 := Scan(s0.status, n + 1, true);
    assert ScannedTo(m, ports, port, s0, 1) == Some(s1);
    var taken := [Established, Established, Closed];
    assert MovedAll(m, n + 1, s1.status) == taken && MovedAll(m, n + 2, taken) == taken;
    var s2 := Scan(taken, n + 3, true);
    assert ScannedTo(m, ports, port, s0, 2) == Some(s2);
    if port == 0 {
      assert MovedAll(m, n + 3, taken) == taken && MovedAll(m, n + 4, taken) == taken;
    }
  }

  /** The table at a moment, with all it has read as so far. */
  datatype Table = Table(status: seq<Status>, ports: seq<u16>, history: seq<seq<Status>>, accesses: nat)

  /** Socket `j` read as `s` at an access since number `from`. */
  ghost predicate ReadAs(t: Table, j: nat, from: nat, s: Status) {
    exists m :: from <= m < |t.history| && j < |t.history[m]| && t.history[m][j] == s
  }

  lemma ReadStays(b: Table, c: Table, j: nat, from: nat, s: Status)
    requires b.history <= c.history && ReadAs(b, j, from, s)
    ensures ReadAs(c, j, from, s)
  {
    var m :| from <= m < |b.history| && j < |b.history[m]| && b.history[m][j] == s;
    assert c.history[m] == b.history[m];
  }

  class SocketTable {
    const count: nat
    const moves: Moves
    /** Whether socket `i` holds received data, at access `n`. */
    const hasData: (nat, nat) -> bool
    var status: seq<Status>
    /** `EthernetClass::_server_port`. */
    var serverPort: seq<u16>
    var accesses: nat
    var srcPort: u16
    /** What all sockets read as, access by access. */
    ghost var history: seq<seq<Status>>

    ghost predicate Sized()
      reads this
    {
      |status| == |serverPort| == count && |history| == accesses
    }

    ghost predicate Valid()
      reads this
    {
      Sized() && OneListenerPerPort(status, serverPort)
    }

    /** Where received data is waiting, on a quiet network. */
    ghost function Waiting(): nat -> bool {
      (i: nat) => hasData(0, i)
    }

    /** Nothing happens on the network side. */
    ghost predicate Quiet() {
      && (forall n, i, s :: moves(n, i, s) == s)
      && (forall n, i :: hasData(n, i) == hasData(0, i))
    }

    /** The chip takes no socket out of LISTEN or INIT; all other moves are free. */
    ghost predicate Stay() {
      forall n, i, s :: s == Listening || s == Init ==> moves(n, i, s) == s
    }

    /** The chip never closes socket `j`. */
    ghost predicate KeepsOpen(j: nat) {
      forall n, s :: moves(n, j, s) == Closed ==> s == Closed
    }

    ghost function Now(): Table
      reads this
    {
      Table(status, serverPort, history, accesses)
    }

    /** Socket `j` read as half closed at an access since number `from`, and at a later one
        no data was waiting there. */
    ghost predicate Emptied(t: Table, j: nat, from: nat) {
      exists m, n :: from <= m < n <= t.accesses && m < |t.history| && j < |t.history[m]|
        && t.history[m][j] == CloseWait && !hasData(n, j)
    }

    /** From `a` to `b` only these sockets of a server were given up or taken: those found half
        closed and then without data, and those found closed, for `port`; and no other was
        closed that the chip keeps open. */
    ghost predicate Touched(a: Table, b: Table, port: u16) {
      && |a.ports| == |b.ports| == |a.status| == |b.status|
      && a.history <= b.history && a.accesses <= b.accesses
      && forall j: nat :: j < |a.ports| ==> TouchedAt(a, b, port, j)
    }

    ghost predicate TouchedAt(a: Table, b: Table, port: u16, j: nat)
      requires j < |a.ports| == |b.ports| == |a.status| == |b.status|
    {
      && (b.ports[j] == a.ports[j] || Emptied(b, j, a.accesses)
          || (b.ports[j] == port && ReadAs(b, j, a.accesses, Closed)))
      && (KeepsOpen(j) && a.status[j] != Closed && b.status[j] == Closed ==> Emptied(b, j, a.accesses))
    }

    lemma TouchedThen(a: Table, b: Table, c: Table, port: u16)
      requires Touched(a, b, port) && Touched(b, c, port)
      ensures Touched(a, c, port)
    {
      forall j: nat | j < |a.ports| ensures TouchedAt(a, c, port, j) {
        assert TouchedAt(a, b, port, j) && TouchedAt(b, c, port, j);
        if Emptied(b, j, a.accesses) { EmptiedStays(b, c, j, a.accesses); }
        if ReadAs(b, j, a.accesses, Closed) { ReadStays(b, c, j, a.accesses, Closed); }
      }
    }

    lemma TouchedNothing(a: Table, port: u16)
      requires |a.ports| == |a.status|
      ensures Touched(a, a, port)
    {
    }

    lemma EmptiedStays(b: Table, c: Table, j: nat, from: nat)
      requires b.history <= c.history && b.accesses <= c.accesses && Emptied(b, j, from)
      ensures Emptied(c, j, from)
    {
      var m, n :| from <= m < n <= b.accesses && m < |b.history| && j < |b.history[m]|
        && b.history[m][j] == CloseWait && !hasData(n, j);
      assert c.history[m] == b.history[m];
    }

    constructor (count: nat, moves: Moves, hasData: (nat, nat) -> bool)
      ensures Valid() && this.count == count && this.moves == moves && this.hasData == hasData
      ensures forall i :: 0 <= i < count ==> status[i] == Closed && serverPort[i] == 0
    {
      this.count, this.moves, this.hasData := count, moves, hasData;
      status := seq(count, _ => Closed);
      serverPort := seq(count, _ => 0);
      accesses, srcPort, history := 0, 1024, [];
    }

    /** What any access can have done to the table behind the program's back. */
    twostate predicate Drifted()
      reads this
    {
      && |status| == old(|status|) && serverPort == old(serverPort)
      && (forall i :: 0 <= i < |status| && status[i] == Listening ==> old(status[i]) == Listening)
      && (forall i :: 0 <= i < |status| && old(status[i]) == Closed ==> status[i] == Closed)
      && accesses >= old(accesses)
      && (Stay() ==> forall i :: 0 <= i < |status| && old(status[i]) in {Listening, Init} ==>
            status[i] == old(status[i]))
      && (Quiet() ==> status == old(status))
      && old(history) <= history
      && (forall j :: 0 <= j < |status| && KeepsOpen(j) && old(status[j]) != Closed ==> status[j] != Closed)
    }

    method Elapse()
      requires Sized()
      modifies this`status, this`accesses, this`history
      ensures Sized() && Drifted() && (old(Valid()) ==> Valid())
      ensures status == MovedAll(moves, old(accesses), old(status)) && accesses == old(accesses) + 1
      ensures history == old(history) + [status]
    {
      status := MovedAll(moves, accesses, status);
      accesses, history := accesses + 1, history + [status];
    }

    method ReadStatus(i: nat) returns (s: Status)
      requires Sized() && i < count
      modifies this`status, this`accesses, this`history
      ensures Sized() && Drifted() && (old(Valid()) ==> Valid()) && s == status[i]
      ensures status == MovedAll(moves, old(accesses), old(status)) && accesses == old(accesses) + 1
      ensures history == old(history) + [status]
    {
      Elapse();
      s := status[i];
    }

    method Available(i: nat) returns (some: bool)
      requires Sized() && i < count
      modifies this`status, this`accesses, this`history
      ensures Sized() && Drifted() && (old(Valid()) ==> Valid())
      ensures Quiet() ==> some == hasData(0, i)
      ensures some == hasData(accesses, i) && accesses == old(accesses) + 1 && old(history) <= history
    {
      Elapse();
      some := hasData(accesses, i);
    }

    /** As `Drifted`, except for socket `i`, to which a command was given. */
    twostate predicate DriftedBut(i: nat)
      reads this
    {
      && |status| == old(|status|) && serverPort == old(serverPort)
      && (forall j :: 0 <= j < |status| && j != i && status[j] == Listening ==> old(status[j]) == Listening)
      && (forall j :: 0 <= j < |status| && j != i && old(status[j]) == Closed ==> status[j] == Closed)
      && accesses >= old(accesses)
      && (Stay() ==> forall j :: 0 <= j < |status| && j != i && old(status[j]) in {Listening, Init} ==>
            status[j] == old(status[j]))
      && (Quiet() ==> forall j :: 0 <= j < |status| && j != i ==> status[j] == old(status[j]))
      && old(history) <= history
      && (forall j :: 0 <= j < |status| && j != i && KeepsOpen(j) && old(status[j]) != Closed ==>
            status[j] != Closed)
    }

    /** A command register is written and the command takes effect. */
    method Execute(i: nat, s: Status)
      requires Sized() && i < count
      modifies this`status, this`accesses, this`history
      ensures Sized() && DriftedBut(i)
      ensures status[i] == Listening ==> s == Listening
      ensures s == Closed ==> status[i] == Closed
      ensures Stay() && (s == Listening || s == Init) ==> status[i] == s
      ensures Quiet() ==> status[i] == s
    {
      status := status[i := s];
      Elapse();
    }

    /** `socket(i, TCP, ...)`: close, then open. */
    method Socket(i: nat)
      requires Sized() && i < count
      modifies this`status, this`accesses, this`history
      ensures Sized() && DriftedBut(i) && status[i] != Listening
      ensures Stay() ==> status[i] == Init
      ensures Quiet() ==> status[i] == Init
    {
      Execute(i, Closed);
      Execute(i, Init);
    }

    method Listen(i: nat)
      requires Sized() && i < count && status[i] != Listening
      modifies this`status, this`accesses, this`history
      ensures Sized() && DriftedBut(i)
      ensures Stay() && old(status[i]) == Init ==> status[i] == Listening
      ensures Quiet() ==> status[i] == if old(status[i]) == Init then Listening else old(status[i])
    {
      var s := ReadStatus(i);
      if s == Init {
        Execute(i, Listening);
      }
    }

    /** `EthernetServer::begin`: the first closed socket becomes the listener. */
    method Begin(port: u16)
      requires Valid() && NoListener(status, serverPort, port)
      modifies this`status, this`serverPort, this`accesses, this`history
      ensures Valid() && accesses >= old(accesses)
      ensures Stay() && FirstClosed(old(status)) < count ==>
        exists i :: 0 <= i <= FirstClosed(old(status)) && status[i] == Listening && serverPort[i] == port
      ensures Quiet() ==> (status, serverPort) == Opened(old(status), old(serverPort), port)
      ensures Touched(old(Now()), Now(), port)
    {
      for sock := 0 to count
        invariant Valid() && NoListener(status, serverPort, port) && accesses >= old(accesses)
        invariant old(history) <= history && serverPort == old(serverPort)
        invariant forall j :: 0 <= j < count && KeepsOpen(j) && old(status[j]) != Closed ==> status[j] != Closed
        invariant Quiet() ==> status == old(status) && serverPort == old(serverPort)
        invariant forall j :: 0 <= j < count && old(status[j]) == Closed ==> status[j] == Closed
        invariant forall j :: 0 <= j < sock ==> old(status[j]) != Closed
      {
        var s := ReadStatus(sock);
        if s == Closed {
          if Quiet() { FirstClosedIs(old(status), sock); }
          ghost var seen, before := |history| - 1, history;
          OpenListener(sock, port);
          assert history[seen] == before[seen] && ReadAs(Now(), sock, old(accesses), Closed);
          return;
        }
      }
      if Quiet() { FirstClosedIs(old(status), count); }
    }

    method OpenListener(sock: nat, port: u16)
      requires Valid() && NoListener(status, serverPort, port) && sock < count
      modifies this`status, this`serverPort, this`accesses, this`history
      ensures Valid() && accesses >= old(accesses)
      ensures Stay() ==> status[sock] == Listening && serverPort[sock] == port
      ensures Quiet() ==> status == old(status)[sock := Listening] && serverPort == old(serverPort)[sock := port]
      ensures serverPort == old(serverPort)[sock := port] && old(history) <= history
      ensures forall j :: 0 <= j < count && j != sock && KeepsOpen(j) && old(status[j]) != Closed ==>
        status[j] != Closed
    {
      Socket(sock);
      Listen(sock);
      serverPort := serverPort[sock := port];
      forall i | 0 <= i < count && i != sock && status[i] == Listening
        ensures old(status[i]) == Listening && serverPort[i] == old(serverPort[i]) != port
      {
      }
    }

    /** `EthernetClient::stop` for a socket: wait up to a second for the chip to close
        it, then close it by force; either way it ends closed and unregistered. */
    method Stop(sock: nat)
      requires Valid() && sock < count
      modifies this`status, this`serverPort, this`accesses, this`history
      ensures Valid()
      ensures status[sock] == Closed && serverPort == old(serverPort)[sock := 0]
      ensures forall j :: 0 <= j < count && j != sock && status[j] == Listening ==> old(status[j]) == Listening
      ensures forall j :: 0 <= j < count && old(status[j]) == Closed ==> status[j] == Closed
      ensures accesses >= old(accesses)
      ensures Stay() ==>
        forall j :: 0 <= j < count && j != sock && old(status[j]) == Listening ==> status[j] == Listening
      ensures Quiet() ==> status == old(status)[sock := Closed]
      ensures old(history) <= history
      ensures forall j :: 0 <= j < count && j != sock && KeepsOpen(j) && old(status[j]) != Closed ==>
        status[j] != Closed
    {
      Elapse();
      var waited := 0;
      var s := ReadStatus(sock);
      while s != Closed && waited < 1000
        invariant Valid() && Drifted() && s == status[sock]
        decreases 1000 - waited
      {
        waited := waited + 1;
        s := ReadStatus(sock);
      }
      s := ReadStatus(sock);
      if s != Closed {
        Execute(sock, Closed);
      }
      serverPort := serverPort[sock := 0];
    }

    /** `EthernetServer::accept`: the invariant holds through every interleaving with
        the chip; left alone, it does what `Accepting` says. */
    method Accept(port: u16)
      requires Valid()
      modifies this`status, this`serverPort, this`accesses, this`history
      ensures Valid() && accesses >= old(accesses)
      ensures Stay() && (!NoListener(old(status), old(serverPort), port) || FirstClosed(old(status)) < count) ==>
        !NoListener(status, serverPort, port)
      ensures var scan := ScannedTo(moves, old(serverPort), port, old(Scan(status, accesses, false)), count);
        scan.Some? && scan.value.listening ==> status == scan.value.status && serverPort == old(serverPort)
      ensures Quiet() ==>
        (status, serverPort) == Accepting(old(status), old(serverPort), port, Waiting())
      ensures Touched(old(Now()), Now(), port)
    {
      var listening := Sweep(port);
      if !listening {
        ghost var swept := Now();
        Begin(port);
        TouchedThen(old(Now()), swept, Now(), port);
      }
    }

    /** The scan of `accept`: is anybody listening; drained connections that the other
        side has ended are stopped on the way. */
    method Sweep(port: u16) returns (listening: bool)
      requires Valid()
      modifies this`status, this`serverPort, this`accesses, this`history
      ensures Valid() && accesses >= old(accesses)
      ensures !listening ==> NoListener(status, serverPort, port)
      ensures listening ==> !NoListener(old(status), old(serverPort), port)
      ensures forall j :: 0 <= j < count && old(status[j]) == Closed ==> status[j] == Closed
      ensures Stay() || Quiet() ==> (listening <==> !NoListener(old(status), old(serverPort), port))
      ensures Stay() && listening ==> !NoListener(status, serverPort, port)
      ensures var scan := ScannedTo(moves, old(serverPort), port, old(Scan(status, accesses, false)), count);
        scan.Some? ==> scan.value == Scan(status, accesses, listening) && serverPort == old(serverPort)
      ensures Quiet() ==> (status, serverPort) == Swept(old(status), old(serverPort), port, Waiting())
      ensures Touched(old(Now()), Now(), port)
    {
      ghost var status0, ports0 := status, serverPort;
      listening := ScanAll(port);
      if Quiet() { SweptIs(status0, ports0, port, Waiting(), status, serverPort); }
    }

    /** The loop of the scan, with what is known socket by socket. */
    method ScanAll(port: u16) returns (listening: bool)
      requires Valid()
      modifies this`status, this`serverPort, this`accesses, this`history
      ensures Valid() && accesses >= old(accesses)
      ensures !listening ==> NoListener(status, serverPort, port)
      ensures listening ==> !NoListener(old(status), old(serverPort), port)
      ensures forall j :: 0 <= j < count ==>
        && (old(status[j]) == Closed ==> status[j] == Closed)
        && (Stay() && old(status[j]) == Listening ==> status[j] == Listening && serverPort[j] == old(serverPort[j]))
      ensures var scan := ScannedTo(moves, old(serverPort), port, old(Scan(status, accesses, false)), count);
        scan.Some? ==> scan.value == Scan(status, accesses, listening) && serverPort == old(serverPort)
      ensures Quiet() ==> forall i :: 0 <= i < count ==>
        (status[i], serverPort[i]) == SweptAt(old(status), old(serverPort), port, Waiting(), i, count)
      ensures Touched(old(Now()), Now(), port)
    {
      listening := false;
      ghost var t0 := Now();
      TouchedNothing(t0, port);
      for sock := 0 to count
        invariant Valid() && |t0.status| == |t0.ports| == count && ScanFrom(t0, port, sock, listening)
      {
        listening := InspectNext(t0, port, sock, listening);
      }
    }

    /** The scan that began with table `t0` has passed the first `sock` sockets. */
    ghost predicate ScanFrom(t0: Table, port: u16, sock: nat, listening: bool)
      reads this
      requires Sized() && sock <= count == |t0.status| == |t0.ports|
    {
      && t0.accesses <= accesses
      && (!listening ==> forall i :: 0 <= i < sock && status[i] == Listening ==> serverPort[i] != port)
      && (Quiet() ==> forall i :: 0 <= i < sock ==>
            (status[i], serverPort[i]) == SweptAt(t0.status, t0.ports, port, Waiting(), i, count))
      && (Quiet() ==> forall i :: sock <= i < count ==> status[i] == t0.status[i])
      && (listening ==> !NoListener(t0.status, t0.ports, port))
      && (forall j :: sock <= j < count ==> serverPort[j] == t0.ports[j])
      && (forall j :: 0 <= j < count ==>
            && (status[j] == Listening ==> t0.status[j] == Listening)
            && (t0.status[j] == Closed ==> status[j] == Closed)
            && (Stay() && t0.status[j] == Listening ==> status[j] == Listening && serverPort[j] == t0.ports[j]))
      && Touched(t0, Now(), port) && ScanAgrees(t0, port, sock, listening)
    }

    /** It is what `ScannedTo` says, if that says anything. */
    ghost predicate ScanAgrees(t0: Table, port: u16, sock: nat, listening: bool)
      reads this
      requires sock <= |t0.status| == |t0.ports|
    {
      var scan := ScannedTo(moves, t0.ports, port, Scan(t0.status, t0.accesses, false), sock);
      scan.Some? ==> scan.value == Scan(status, accesses, listening) && serverPort == t0.ports
    }

    method InspectNext(ghost t0: Table, port: u16, sock: nat, listening0: bool) returns (listening: bool)
      requires Valid() && sock < count == |t0.status| == |t0.ports| && ScanFrom(t0, port, sock, listening0)
      modifies this`status, this`serverPort, this`accesses, this`history
      ensures Valid() && ScanFrom(t0, port, sock + 1, listening)
    {
      ghost var before := Now();
      listening := Inspect(sock, port, listening0);
      TouchedThen(t0, before, Now(), port);
    }

    /** One socket of the scan. */
    method Inspect(sock: nat, port: u16, listening0: bool) returns (listening: bool)
      requires Valid() && sock < count
      modifies this`status, this`serverPort, this`accesses, this`history
      ensures Valid() && accesses >= old(accesses)
      ensures listening0 ==> listening
      ensures listening ==> listening0 || old(status[sock] == Listening && serverPort[sock] == port)
      ensures forall j :: 0 <= j < count && old(status[j]) == Closed ==> status[j] == Closed
      ensures Stay() ==> forall j :: 0 <= j < count && old(status[j]) == Listening ==>
        status[j] == Listening && serverPort[j] == old(serverPort[j])
      ensures var scan := Scanned(moves, old(serverPort[sock]) == port, old(Scan(status, accesses, listening0)), sock);
        scan.Some? ==> scan.value == Scan(status, accesses, listening) && serverPort == old(serverPort)
      ensures !listening && status[sock] == Listening ==> serverPort[sock] != port
      ensures forall j :: 0 <= j < count && j != sock ==> serverPort[j] == old(serverPort[j])
      ensures forall j :: 0 <= j < count && status[j] == Listening ==> old(status[j]) == Listening
      ensures Quiet() ==>
        && (listening <==> listening0 || (old(status[sock]) == Listening && old(serverPort[sock]) == port))
        && (forall j :: 0 <= j < count && j != sock ==> status[j] == old(status[j]))
        && (status[sock], serverPort[sock]) ==
             if Drained(old(status[sock]), old(serverPort[sock]), port, hasData(0, sock)) then (Closed, 0)
             else old((status[sock], serverPort[sock]))
      ensures serverPort[sock] == old(serverPort[sock]) || (old(serverPort[sock]) == port && serverPort[sock] == 0)
      ensures Touched(old(Now()), Now(), port)
    {
      listening := listening0;
      if serverPort[sock] == port {
        var s := ReadStatus(sock);
        if s == Listening {
          listening := true;
        } else {
          s := ReadStatus(sock);
          if s == CloseWait {
            ghost var before := Now();
            Reclaim(sock, port);
            ReclaimTouches(old(Now()), before, Now(), sock, port);
          }
        }
      }
    }

    /** A half-closed socket is stopped if no data is waiting there. */
    method Reclaim(sock: nat, ghost port: u16)
      requires Valid() && sock < count && accesses > 0
      modifies this`status, this`serverPort, this`accesses, this`history
      ensures Valid() && accesses >= old(accesses)
      ensures forall j :: 0 <= j < count && j != sock ==> serverPort[j] == old(serverPort[j])
      ensures forall j :: 0 <= j < count && status[j] == Listening ==> old(status[j]) == Listening
      ensures forall j :: 0 <= j < count && old(status[j]) == Closed ==> status[j] == Closed
      ensures Stay() ==>
        forall j :: 0 <= j < count && j != sock && old(status[j]) == Listening ==> status[j] == Listening
      ensures Reclaimed(old(Now()), Now(), sock)
      ensures Quiet() ==>
        && (forall j :: 0 <= j < count && j != sock ==> status[j] == old(status[j]))
        && (status[sock], serverPort[sock]) ==
             if hasData(0, sock) then old((status[sock], serverPort[sock])) else (Closed, 0)
    {
      var some := Available(sock);
      if !some {
        Stop(sock);
      }
    }

    /** Socket `sock` at most lost its registration, and only without data. */
    ghost predicate Reclaimed(a: Table, b: Table, sock: nat) {
      && |a.ports| == |b.ports| == |a.status| == |b.status| && sock < |a.ports|
      && a.history <= b.history && a.accesses < b.accesses
      && (forall j :: 0 <= j < |a.ports| && j != sock ==>
            b.ports[j] == a.ports[j] && (KeepsOpen(j) && a.status[j] != Closed ==> b.status[j] != Closed))
      && (b.ports[sock] == a.ports[sock] || b.ports[sock] == 0)
      && (hasData(a.accesses + 1, sock) ==>
            b.ports[sock] == a.ports[sock]
            && (KeepsOpen(sock) && a.status[sock] != Closed ==> b.status[sock] != Closed))
    }

    lemma ReclaimTouches(t0: Table, a: Table, b: Table, sock: nat, port: u16)
      requires Reclaimed(a, b, sock) && t0.accesses < a.accesses == |a.history| && t0.history <= a.history
      requires sock < |a.history[a.accesses - 1]| && a.history[a.accesses - 1][sock] == CloseWait
      requires |t0.ports| == |t0.status| == |a.ports| && t0.ports == a.ports
      requires forall j :: 0 <= j < |a.status| && KeepsOpen(j) && t0.status[j] != Closed ==> a.status[j] != Closed
      ensures Touched(t0, b, port)
    {
      forall j: nat | j < |t0.ports| ensures TouchedAt(t0, b, port, j) {
        if j == sock && !hasData(a.accesses + 1, sock) {
          assert b.history[a.accesses - 1] == a.history[a.accesses - 1];
          assert Emptied(b, sock, t0.accesses);
        }
      }
    }

    /** `EthernetServer::available`: the first of the server's sockets with data. */
    method NextClient(port: u16) returns (sock: nat)
      requires Valid()
      modifies this`status, this`serverPort, this`accesses, this`history
      ensures Valid() && sock <= count
      ensures sock < count ==> serverPort[sock] == port && Offered(sock, old(accesses))
      ensures Stay() && (!NoListener(old(status), old(serverPort), port) || FirstClosed(old(status)) < count) ==>
        !NoListener(status, serverPort, port)
      ensures Quiet() ==>
        && (status, serverPort) == Accepting(old(status), old(serverPort), port, Waiting())
        && sock == FirstServed(status, serverPort, port, Waiting())
      ensures Quiet() ==> forall i :: 0 <= i < count && i <= sock ==>
        (i == sock <==> serverPort[i] == port && (status[i] == Established || status[i] == CloseWait) && hasData(0, i))
    {
      Accept(port);
      label accepted:
      for i := 0 to count
        invariant Valid() && serverPort == old@accepted(serverPort) && accesses >= old@accepted(accesses)
        invariant Stay() ==>
          forall j :: 0 <= j < count && old@accepted(status[j]) == Listening ==> status[j] == Listening
        invariant Quiet() ==> status == old@accepted(status)
        invariant Quiet() ==> forall j :: 0 <= j < i ==> !Served(status[j], serverPort[j], port, hasData(0, j))
      {
        var hit := Serves(i, port);
        if hit {
          if Quiet() { FirstServedIs(status, serverPort, port, Waiting(), i); }
          return i;
        }
      }
      if Quiet() { FirstServedIs(status, serverPort, port, Waiting(), count); }
      sock := count;
    }

    /** Socket `i` read as connected at one of the accesses since number `from`, and data
        was waiting there at a later one. */
    ghost predicate Offered(i: nat, from: nat)
      reads this
    {
      exists m, n :: from <= m < n <= accesses && WasConnected(m, i) && hasData(n, i)
    }

    ghost predicate WasConnected(n: nat, i: nat)
      reads this
    {
      n < |history| && i < |history[n]| && (history[n][i] == Established || history[n][i] == CloseWait)
    }

    method Serves(i: nat, port: u16) returns (hit: bool)
      requires Valid() && i < count
      modifies this`status, this`accesses, this`history
      ensures Valid() && serverPort == old(serverPort)
      ensures hit ==> serverPort[i] == port && Offered(i, old(accesses))
      ensures accesses >= old(accesses)
      ensures Stay() ==> forall j :: 0 <= j < count && old(status[j]) == Listening ==> status[j] == Listening
      ensures Quiet() ==> status == old(status) && (hit <==> Served(status[i], serverPort[i], port, hasData(0, i)))
    {
      hit := false;
      if serverPort[i] == port {
        var s := ReadStatus(i);
        var connected := s == Established;
        if !connected {
          s := ReadStatus(i);
          connected := s == CloseWait;
        }
        if connected {
          ghost var seen, before := accesses - 1, history;
          hit := Available(i);
          assert history[seen] == before[seen] && WasConnected(seen, i);
        }
      }
    }

    /** `EthernetClient::connect` up to the CONNECT command: the first socket that is
        closed or half closed is opened afresh.  `addressOk` tells whether `connect`
        of the socket layer accepts the address; if not, the socket stays open. */
    method StartConnect(addressOk: bool) returns (sock: nat)
      requires Valid()
      modifies this`status, this`accesses, this`history, this`srcPort
      ensures Valid() && sock <= count && serverPort == old(serverPort)
      ensures addressOk ==> sock <= FirstClosed(old(status))
      ensures Quiet() ==>
        var k := FirstReusable(old(status));
        if k == count then sock == count && status == old(status)
        else if addressOk then sock == k && status == old(status)[k := SynSent]
        else sock == count && status == old(status)[k := Init]
      ensures Quiet() && sock < count ==> old(status[sock]) in {Closed, FinWait, CloseWait}
      ensures Quiet() && addressOk ==>
        forall j :: 0 <= j < sock ==> old(status[j]) !in {Closed, FinWait, CloseWait}
      ensures srcPort == old(srcPort) || srcPort == if old(srcPort) == 0xFFFF then 1024 else old(srcPort) + 1
    {
      sock := count;
      for i := 0 to count
        invariant Valid() && sock == count && srcPort == old(srcPort) && serverPort == old(serverPort)
        invariant forall j :: 0 <= j < count && old(status[j]) == Closed ==> status[j] == Closed
        invariant forall j :: 0 <= j < i ==> old(status[j]) != Closed
        invariant Quiet() ==> status == old(status) && forall j :: 0 <= j < i ==> !Reusable(status[j])
      {
        var s := ReadStatus(i);
        if Reusable(s) {
          if Quiet() { FirstReusableIs(old(status), i); }
          srcPort := Wrap16(srcPort + 1);
          if srcPort == 0 { srcPort := 1024; }
          sock := OpenClient(i, addressOk);
          return;
        }
      }
      if Quiet() { FirstReusableIs(old(status), count); }
    }

    method OpenClient(i: nat, addressOk: bool) returns (sock: nat)
      requires Valid() && i < count
      modifies this`status, this`accesses, this`history
      ensures Valid() && serverPort == old(serverPort) && sock == if addressOk then i else count
      ensures Quiet() ==> status == old(status)[i := if addressOk then SynSent else Init]
    {
      Socket(i);
      sock := count;
      if addressOk {
        Execute(i, SynSent);
        sock := i;
      }
      assert forall j :: 0 <= j < count && status[j] == Listening ==> old(status[j]) == Listening;
    }
  }

  // ----- Sockets handed to clients -----

  predicate Reusable(s: Status) { s == Closed || s == FinWait || s == CloseWait }

  function FirstReusable(status: seq<Status>): (k: nat)
    ensures k <= |status|
    ensures k < |status| ==> Reusable(status[k])
    ensures forall i :: 0 <= i < k ==> !Reusable(status[i])
  {
    if status == [] || Reusable(status[0]) then 0 else 1 + FirstReusable(status[1..])
  }

  lemma FirstReusableIs(status: seq<Status>, k: nat)
    requires k <= |status| && (forall i :: 0 <= i < k ==> !Reusable(status[i]))
    requires k < |status| ==> Reusable(status[k])
    ensures FirstReusable(status) == k
  {
  }

  /** `n` calls of `connect` with an address the socket layer refuses. */
  function AfterRefusals(status: seq<Status>, n: nat): (r: seq<Status>)
    ensures |r| == |status|
  {
    if n == 0 then status
    else
      var s := AfterRefusals(status, n - 1);
      var k := FirstReusable(s);
      if k < |s| then s[k := Init] else s
  }

  /** Each of them leaves one more socket open that nobody takes again: as many calls
      as there are sockets leave none for any later client or listener. */
  lemma {:induction false} RefusalsExhaustSockets(status: seq<Status>, n: nat)
    ensures FirstReusable(AfterRefusals(status, n)) >= Min(n, |status|)
    ensures n >= |status| ==> FirstClosed(AfterRefusals(status, n)) == |status|
  {
    if n > 0 {
      RefusalsExhaustSockets(status, n - 1);
      var s := AfterRefusals(status, n - 1);
      var k := FirstReusable(s);
      if k < |s| {
        var s' := s[k := Init];
        assert forall i :: 0 <= i < k + 1 ==> !Reusable(s'[i]);
        assert FirstReusable(s') > k;
      }
    }
  }

  predicate Served(s: Status, p: u16, port: u16, data: bool) {
    p == port && (s == Established || s == CloseWait) && data
  }

  function FirstServed(status: seq<Status>, ports: seq<u16>, port: u16, data: nat -> bool): (k: nat)
    requires |status| == |ports|
    ensures k <= |status|
    ensures k < |status| ==> Served(status[k], ports[k], port, data(k))
    ensures forall i :: 0 <= i < k ==> !Served(status[i], ports[i], port, data(i))
  {
    ServedFrom(status, ports, port, data, 0)
  }

  function ServedFrom(status: seq<Status>, ports: seq<u16>, port: u16, data: nat -> bool, n: nat): (k: nat)
    requires |status| == |ports| && n <= |status|
    ensures n <= k <= |status|
    ensures k < |status| ==> Served(status[k], ports[k], port, data(k))
    ensures forall i :: n <= i < k ==> !Served(status[i], ports[i], port, data(i))
    decreases |status| - n
  {
    if n == |status| || Served(status[n], ports[n], port, data(n)) then n
    else ServedFrom(status, ports, port, data, n + 1)
  }

  lemma FirstServedIs(status: seq<Status>, ports: seq<u16>, port: u16, data: nat -> bool, k: nat)
    requires |status| == |ports| && k <= |status|
    requires forall i :: 0 <= i < k ==> !Served(status[i], ports[i], port, data(i))
    requires k < |status| ==> Served(status[k], ports[k], port, data(k))
    ensures FirstServed(status, ports, port, data) == k
  {
  }

  /** A client that takes over a socket registered for a server's port keeps the
      registration: once connected and with data, it is what the server hands out,
      exactly if no lower socket of the port has data. */
  lemma TakenSocketIsServedIff(status: seq<Status>, ports: seq<u16>, port: u16, data: nat -> bool)
    requires |status| == |ports|
    requires FirstReusable(status) < |status|
    ensures var k := FirstReusable(status);
      FirstServed(status[k := Established], ports, port, data) == k <==>
        && ports[k] == port && data(k)
        && forall i :: 0 <= i < k ==> !(ports[i] == port && status[i] == Established && data(i))
  {
    var k := FirstReusable(status);
    var connected := status[k := Established];
    var f := FirstServed(connected, ports, port, data);
    if ports[k] == port && data(k) {
      assert Served(connected[k], ports[k], port, data(k));
    }
    forall i | 0 <= i < k
      ensures Served(connected[i], ports[i], port, data(i)) <==>
        ports[i] == port && status[i] == Established && data(i)
    {
      assert !Reusable(status[i]);
    }
  }

  /** A connection the other side has ended and nobody has data from. */
  predicate Drained(s: Status, p: u16, port: u16, data: bool) {
    p == port && s == CloseWait && !data
  }

  /** Socket `i` when the scan has passed the first `n` sockets. */
  function SweptAt(status: seq<Status>, ports: seq<u16>, port: u16, data: nat -> bool, i: nat, n: nat): (Status, u16)
    requires |status| == |ports| && i < |status|
  {
    if i < n && Drained(status[i], ports[i], port, data(i)) then (Closed, 0) else (status[i], ports[i])
  }

  function Swept(status: seq<Status>, ports: seq<u16>, port: u16, data: nat -> bool): (r: (seq<Status>, seq<u16>))
    requires |status| == |ports|
    ensures |r.0| == |r.1| == |status|
  {
    var n := |status|;
    (seq(n, i requires 0 <= i < n => SweptAt(status, ports, port, data, i, n).0),
     seq(n, i requires 0 <= i < n => SweptAt(status, ports, port, data, i, n).1))
  }

  lemma SweptIs(status: seq<Status>, ports: seq<u16>, port: u16, data: nat -> bool, s: seq<Status>, p: seq<u16>)
    requires |status| == |ports| == |s| == |p|
    requires forall i :: 0 <= i < |s| ==> (s[i], p[i]) == SweptAt(status, ports, port, data, i, |s|)
    ensures s == Swept(status, ports, port, data).0 && p == Swept(status, ports, port, data).1
  {
    var swept := Swept(status, ports, port, data);
    forall i | 0 <= i < |s| ensures s[i] == swept.0[i] && p[i] == swept.1[i] {
      assert (s[i], p[i]) == SweptAt(status, ports, port, data, i, |s|);
    }
  }

  /** `accept` on a quiet network. */
  function Accepting(status: seq<Status>, ports: seq<u16>, port: u16, data: nat -> bool): (r: (seq<Status>, seq<u16>))
    requires |status| == |ports|
    ensures |r.0| == |r.1| == |status|
  {
    var (s, p) := Swept(status, ports, port, data);
    if NoListener(status, ports, port) then Opened(s, p, port) else (s, p)
  }

  /** What `accept` does to socket `i`, in plain statuses: it closes and unregisters what is
      half closed, its own and without data, leaves the others alone, and then opens the
      lowest closed socket if none was listening. */
  lemma AcceptingIs(status: seq<Status>, ports: seq<u16>, port: u16, data: nat -> bool, i: nat)
    requires |status| == |ports| && i < |status|
    ensures var (s, p) := Accepting(status, ports, port, data);
      var gone := status[i] == CloseWait && ports[i] == port && !data(i);
      && (!gone && status[i] != Closed ==> s[i] == status[i] && p[i] == ports[i])
      && (gone ==> (s[i] == Closed && p[i] == 0) || (s[i] == Listening && p[i] == port))
      && (status[i] == Closed ==> (s[i] == Closed && p[i] == ports[i]) || (s[i] == Listening && p[i] == port))
      && (s[i] == Listening && status[i] != Listening ==>
            && (forall j :: 0 <= j < |status| && status[j] == Listening ==> ports[j] != port)
            && (forall j :: 0 <= j < i ==> s[j] != Closed))
  {
    var (s, p) := Swept(status, ports, port, data);
    assert s[i] == SweptAt(status, ports, port, data, i, |status|).0;
    assert p[i] == SweptAt(status, ports, port, data, i, |status|).1;
  }

  /** `accept` ends with a listening socket exactly when there was one, or a socket
      was closed, or one of the server's own could be reclaimed. */
  lemma AcceptListensIff(status: seq<Status>, ports: seq<u16>, port: u16, data: nat -> bool)
    requires |status| == |ports|
    ensures var (s, p) := Accepting(status, ports, port, data);
      !NoListener(s, p, port) <==>
        || !NoListener(status, ports, port)
        || exists i :: 0 <= i < |status| &&
             (status[i] == Closed || (status[i] == CloseWait && ports[i] == port && !data(i)))
  {
    var (s, p) := Swept(status, ports, port, data);
    var (s', p') := Accepting(status, ports, port, data);
    forall i | 0 <= i < |status|
      ensures s[i] == Listening <==> status[i] == Listening
      ensures status[i] == Listening ==> p[i] == ports[i]
      ensures s[i] == Closed <==> status[i] == Closed || Drained(status[i], ports[i], port, data(i))
    {
    }
    if NoListener(status, ports, port) {
      var k := FirstClosed(s);
      if k < |s| {
        assert s'[k] == Listening && p'[k] == port;
      }
    } else {
      var i :| 0 <= i < |status| && status[i] == Listening && ports[i] == port;
      assert s'[i] == Listening && p'[i] == port;
    }
  }
}
