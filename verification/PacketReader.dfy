/** The current datagram as the DHCP and DNS clients see it: `EthernetUDP` while
    no arrival disturbs its size readings, so that every read succeeds until the
    datagram is used up. */
module PacketReader {
  import opened Words
  import opened Wrappers
  import opened UdpChip

  /** `read()` as an `int`: the next byte, or -1 at the end. */
  function Next(rest: seq<byte>): int {
    if rest == [] then -1 else rest[0]
  }

  /** `read()` stored in a `uint8_t`: -1 becomes 255. */
  function NextByte(rest: seq<byte>): byte {
    if rest == [] then 255 else rest[0]
  }

  /** The cursor after `n` calls of `read()`. */
  function Skip(rest: seq<byte>, n: nat): (s: seq<byte>)
    ensures |s| == Max(|rest| - n, 0)
  {
    rest[Min(n, |rest|)..]
  }

  /** A buffer after `read(buffer, len)`: a short datagram leaves its tail as it was. */
  function Over(buffer: seq<byte>, rest: seq<byte>): (s: seq<byte>)
    ensures |s| == |buffer|
  {
    if |buffer| <= |rest| then rest[..|buffer|] else rest + buffer[|rest|..]
  }

  lemma SkipSkip(rest: seq<byte>, m: nat, n: nat)
    ensures Skip(Skip(rest, m), n) == Skip(rest, m + n)
  {
  }

  /** What `parsePacket` finds, poll by poll; an empty datagram counts as none. */
  type Arrivals = nat -> Option<Datagram>

  predicate Nothing(a: Option<Datagram>) { a.None? || a.value.payload == [] }

  ghost predicate Silent(arrivals: Arrivals, from: nat, to: nat) {
    forall i :: from <= i < to ==> Nothing(arrivals(i))
  }

  /** `got` is what came first at the polls from number `from` to before number `to`,
      the last of them; or none of them found anything. */
  ghost predicate Came(arrivals: Arrivals, got: Option<Datagram>, from: nat, to: nat) {
    if got.Some? then
      from < to && arrivals(to - 1) == got && !Nothing(got) && Silent(arrivals, from, to - 1)
    else
      Silent(arrivals, from, to)
  }

  /** A wait begun at time `begun` that polls every 50 ms until something comes or the
      timeout is over, and ends at time `now`. */
  ghost predicate Waited(arrivals: Arrivals, timeout: nat, got: Option<Datagram>,
                         from: nat, begun: nat, to: nat, now: nat) {
    && from < to && Came(arrivals, got, from, to)
    && now == begun + 50 * (to - from - 1) && now <= begun + timeout + 50
    && (got.None? ==> now - begun > timeout)
  }

  class Reader {
    var rest: seq<byte>
    var remoteIp: Ip
    var remotePort: u16

    constructor ()
      ensures rest == []
    {
      rest, remoteIp, remotePort := [], [0, 0, 0, 0], 0;
    }

    method Open(d: Datagram)
      modifies this
      ensures rest == d.payload && remoteIp == d.ip && remotePort == d.port
    {
      rest, remoteIp, remotePort := d.payload, d.ip, d.port;
    }

    method Read() returns (b: int)
      modifies this`rest
      ensures b == Next(old(rest)) && rest == Skip(old(rest), 1)
    {
      if rest == [] {
        return -1;
      }
      b := rest[0];
      rest := rest[1..];
    }

    /** `read()` assigned to a byte variable. */
    method ReadByte() returns (b: byte)
      modifies this`rest
      ensures b == NextByte(old(rest)) && rest == Skip(old(rest), 1)
    {
      var r := Read();
      b := r % 0x100;
    }

    /** `read(buffer, sizeof(buffer))`. */
    method ReadOver(buffer: seq<byte>) returns (filled: seq<byte>)
      modifies this`rest
      ensures filled == Over(buffer, old(rest)) && rest == Skip(old(rest), |buffer|)
    {
      var n := Min(|buffer|, |rest|);
      filled := rest[..n] + buffer[n..];
      rest := rest[n..];
    }

    /** A counted loop of `read()` whose results nobody looks at. */
    method Discard(n: nat)
      modifies this`rest
      ensures rest == Skip(old(rest), n)
    {
      for i := 0 to n
        invariant rest == Skip(old(rest), i)
      {
        var b := Read();
        SkipSkip(old(rest), i, 1);
      }
    }

    method Flush()
      modifies this`rest
      ensures rest == []
    {
      while rest != []
        decreases |rest|
      {
        var b := Read();
      }
    }
  }
}
