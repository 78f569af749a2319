/** The numeric-address shortcut of the DNS client. */
module InetAton {
  import opened Words
  import opened UdpChip
  import opened DnsName

  /** `char` is signed. */
  function CharValue(c: byte): int { if c < 0x80 then c as int else c as int - 0x100 }

  /** The test meant to find characters that cannot be part of an address. */
  predicate LooksNumeric(c: byte) {
    c == DOT || CharValue(c) >= 48 || CharValue(c) <= 57
  }

  /** It lets every character through. */
  lemma EverythingLooksNumeric(c: byte)
    ensures LooksNumeric(c)
  {
  }

  /** One more character of a segment, in 16-bit `int` arithmetic. */
  function Accumulate(value: int, c: byte): (v: int)
    ensures -0x8000 <= v < 0x8000
  {
    Signed16(Wrap16(value * 10 + (CharValue(c) - 48)))
  }

  function SegmentValue(segment: seq<byte>): (v: int)
    ensures -0x8000 <= v < 0x8000
  {
    if segment == [] then 0
    else Accumulate(SegmentValue(segment[..|segment| - 1]), segment[|segment| - 1])
  }

  /** All segments, empty ones included; there is one more than there are dots. */
  function Segments(s: seq<byte>): (segs: seq<seq<byte>>)
    ensures |segs| >= 1
    decreases |s|
  {
    var n := FirstDot(s);
    if n == |s| then [s] else [s[..n]] + Segments(s[n + 1..])
  }

  function Values(segs: seq<seq<byte>>): (vs: seq<int>)
    ensures |vs| == |segs| && forall i :: 0 <= i < |segs| ==> vs[i] == SegmentValue(segs[i])
  {
    seq(|segs|, i requires 0 <= i < |segs| => SegmentValue(segs[i]))
  }

  /** Accepted are at most four segments, none of them above 255 as a 16-bit value. */
  predicate Accepted(values: seq<int>) {
    |values| <= 4 && forall i :: 0 <= i < |values| ==> values[i] <= 255
  }

  /** How many segments fit a byte before the first that does not. */
  function Fitting(values: seq<int>): (n: nat)
    ensures n <= |values| && (forall i :: 0 <= i < n ==> values[i] <= 255)
    ensures n < |values| ==> values[n] > 255
  {
    FittingFrom(values, 0)
  }

  function FittingFrom(values: seq<int>, i: nat): (n: nat)
    requires i <= |values| && forall j :: 0 <= j < i ==> values[j] <= 255
    ensures i <= n <= |values| && (forall j :: 0 <= j < n ==> values[j] <= 255)
    ensures n < |values| ==> values[n] > 255
    decreases |values| - i
  {
    if i < |values| && values[i] <= 255 then FittingFrom(values, i + 1) else i
  }

  /** What `inet_aton` makes of the address it is given, whether it accepts or not. */
  function Stored(s: seq<byte>, address0: Ip): Ip {
    var values := Values(Segments(s));
    Octets(values[..Fitting(values)], address0)
  }

  /** The octets named by the segments; the others keep their old value. */
  function Octets(values: seq<int>, previous: Ip): Ip {
    [Octet(values, 0, previous), Octet(values, 1, previous), Octet(values, 2, previous), Octet(values, 3, previous)]
  }

  function Octet(values: seq<int>, i: nat, previous: Ip): byte
    requires i < 4
  {
    if i < |values| then values[i] % 0x100 else previous[i]
  }

  /** The scan has closed `segment` segments, is inside the one that begins at
      `start`, and has stored the closed ones. */
  ghost predicate Scanned(s: seq<byte>, start: nat, p: nat, segment: nat, value: int, address: Ip, address0: Ip) {
    var values := Values(Segments(s));
    && start <= p <= |s| && segment < |values| && segment <= 4
    && (forall i :: start <= i < p ==> s[i] != DOT)
    && Segments(s)[segment..] == Segments(s[start..])
    && value == SegmentValue(s[start..p])
    && Accepted(values[..segment])
    && address == Octets(values[..segment], address0)
  }

  lemma ScanBegins(s: seq<byte>, address0: Ip)
    ensures Scanned(s, 0, 0, 0, 0, address0, address0)
  {
    assert s[0..] == s && Segments(s)[0..] == Segments(s) && s[0..0] == [];
  }

  lemma ScanDot(s: seq<byte>, start: nat, p: nat, segment: nat, value: int, address: Ip, address0: Ip)
    requires Scanned(s, start, p, segment, value, address, address0) && segment < 4
    requires p < |s| && s[p] == DOT
    ensures value > 255 ==> !Accepted(Values(Segments(s))) && address == Stored(s, address0)
    ensures value <= 255 ==>
      Scanned(s, p + 1, p + 1, segment + 1, 0, address[segment := value % 0x100], address0)
  {
    var segs := Segments(s);
    CloseSegment(s, start, p);
    assert segs[segment] == segs[segment..][0];
    assert segs[segment + 1..] == segs[segment..][1..] == Segments(s[p + 1..]);
    assert s[p + 1..p + 1] == [];
    StoreOctet(Values(segs), segment, address0);
    if value > 255 { Rejected(Values(segs), segment, address0); }
  }

  /** The scan stops at a segment that does not fit, or behind four that do. */
  lemma Rejected(values: seq<int>, segment: nat, address0: Ip)
    requires segment < |values| && Accepted(values[..segment])
    requires values[segment] > 255 || segment == 4
    ensures !Accepted(values) && Octets(values[..segment], address0) == Octets(values[..Fitting(values)], address0)
  {
    var n := Fitting(values);
    forall i | 0 <= i < segment ensures values[i] <= 255 {
      assert values[i] == values[..segment][i];
    }
    assert segment <= n && (segment < 4 ==> n == segment);
  }

  lemma AllFit(values: seq<int>)
    requires Accepted(values)
    ensures values[..Fitting(values)] == values
  {
  }

  lemma ScanDigit(s: seq<byte>, start: nat, p: nat, segment: nat, value: int, address: Ip, address0: Ip)
    requires Scanned(s, start, p, segment, value, address, address0)
    requires p < |s| && s[p] != DOT
    ensures Scanned(s, start, p + 1, segment, Accumulate(value, s[p]), address, address0)
  {
    var longer := s[start..p + 1];
    assert longer[..|longer| - 1] == s[start..p] && longer[|longer| - 1] == s[p];
  }

  lemma ScanEnds(s: seq<byte>, start: nat, segment: nat, value: int, address: Ip, address0: Ip)
    requires Scanned(s, start, |s|, segment, value, address, address0) && segment < 4
    ensures Accepted(Values(Segments(s))) <==> value <= 255
    ensures value <= 255 ==>
      address[segment := value % 0x100] == Octets(Values(Segments(s)), address0) == Stored(s, address0)
    ensures value > 255 ==> address == Stored(s, address0)
  {
    var values := Values(Segments(s));
    LastSegment(s, start, Segments(s), segment);
    StoreOctet(values, segment, address0);
    assert values[..segment + 1] == values;
    if value > 255 { Rejected(values, segment, address0); } else { AllFit(values); }
  }

  lemma StoreOctet(values: seq<int>, n: nat, address0: Ip)
    requires n < |values| && n < 4
    ensures Octets(values[..n], address0)[n := values[n] % 0x100] == Octets(values[..n + 1], address0)
    ensures Accepted(values[..n]) && values[n] <= 255 <==> Accepted(values[..n + 1])
  {
    var longer := values[..n + 1];
    assert longer[..n] == values[..n] && longer[n] == values[n];
    assert forall i :: 0 <= i < n ==> values[..n][i] == longer[i];
  }

  /** `inet_aton` on a string without its terminating zero. */
  method Aton(s: seq<byte>, address0: Ip) returns (ok: bool, address: Ip)
    ensures ok <==> Accepted(Values(Segments(s)))
    ensures ok <==>
      |Segments(s)| <= 4 && forall i :: 0 <= i < |Segments(s)| ==> SegmentValue(Segments(s)[i]) <= 255
    ensures address == Stored(s, address0)
    ensures forall i :: 0 <= i < 4 ==> StoredAt(Segments(s), address0, address, i)
    ensures ok ==> address == Octets(Values(Segments(s)), address0)
  {
    var valid := AllLookNumeric(s);
    if valid {
      ok, address := ScanSegments(s, address0);
    } else {
      ok, address := false, address0;
    }
    forall i | 0 <= i < 4 ensures StoredAt(Segments(s), address0, address, i) {
      StoredIs(s, address0, i);
    }
  }

  method AllLookNumeric(s: seq<byte>) returns (all: bool)
    ensures all
  {
    var p := 0;
    while p < |s| && LooksNumeric(s[p])
      invariant 0 <= p <= |s|
    {
      p := p + 1;
    }
    all := p == |s|;
  }

  /** One character: a dot closes a segment, anything else is taken for a digit. */
  method ScanOne(s: seq<byte>, ghost start0: nat, p: nat, segment0: nat, value0: int, address1: Ip, ghost address0: Ip)
    returns (bad: bool, ghost start: nat, segment: nat, value: int, address: Ip)
    requires Scanned(s, start0, p, segment0, value0, address1, address0) && p < |s| && segment0 < 4
    ensures !bad ==> segment <= 4 && Scanned(s, start, p + 1, segment, value, address, address0)
    ensures bad ==> !Accepted(Values(Segments(s))) && address == Stored(s, address0)
  {
    if s[p] == DOT {
      bad, start, segment, value, address := CloseOne(s, start0, p, segment0, value0, address1, address0);
    } else {
      ScanDigit(s, start0, p, segment0, value0, address1, address0);
      bad, start, segment, value, address := false, start0, segment0, Accumulate(value0, s[p]), address1;
    }
  }

  /** A dot: the segment is stored, or found too large. */
  method CloseOne(s: seq<byte>, ghost start0: nat, p: nat, segment0: nat, value0: int, address1: Ip, ghost address0: Ip)
    returns (bad: bool, ghost start: nat, segment: nat, value: int, address: Ip)
    requires Scanned(s, start0, p, segment0, value0, address1, address0) && p < |s| && s[p] == DOT && segment0 < 4
    ensures !bad ==> segment <= 4 && Scanned(s, start, p + 1, segment, value, address, address0)
    ensures bad ==> !Accepted(Values(Segments(s))) && address == Stored(s, address0)
  {
    ScanDot(s, start0, p, segment0, value0, address1, address0);
    if value0 > 255 {
      return true, start0, segment0, value0, address1;
    } else {
      return false, p + 1, segment0 + 1, 0, address1[segment0 := value0 % 0x100];
    }
  }

  method ScanSegments(s: seq<byte>, address0: Ip) returns (ok: bool, address: Ip)
    ensures ok <==> Accepted(Values(Segments(s)))
    ensures address == Stored(s, address0)
    ensures ok ==> address == Octets(Values(Segments(s)), address0)
  {
    address := address0;
    var segment: nat, segmentValue, p: nat := 0, 0, 0;
    ghost var start: nat := 0;
    ScanBegins(s, address0);
    while p < |s| && segment < 4
      invariant p <= |s| && segment <= 4
      invariant Scanned(s, start, p, segment, segmentValue, address, address0)
      decreases |s| - p
    {
      var bad;
      bad, start, segment, segmentValue, address := ScanOne(s, start, p, segment, segmentValue, address, address0);
      if bad {
        return false, address;
      }
      p := p + 1;
    }
    if segment < 4 {
      ScanEnds(s, start, segment, segmentValue, address, address0);
    } else {
      Rejected(Values(Segments(s)), segment, address0);
    }
    if segmentValue > 255 || segment > 3 {
      return false, address;
    }
    address := address[segment := segmentValue % 0x100];
    ok := true;
  }

  lemma CloseSegment(s: seq<byte>, start: nat, p: nat)
    requires start <= p < |s| && s[p] == DOT && forall i :: start <= i < p ==> s[i] != DOT
    ensures Segments(s[start..]) == [s[start..p]] + Segments(s[p + 1..])
  {
    FirstDotUnique(s[start..], p - start);
    assert s[start..][..p - start] == s[start..p] && s[start..][p - start + 1..] == s[p + 1..];
  }

  lemma LastSegment(s: seq<byte>, start: nat, segs: seq<seq<byte>>, segment: nat)
    requires start <= |s| && segment < |segs| && forall i :: start <= i < |s| ==> s[i] != DOT
    requires segs[segment..] == Segments(s[start..])
    ensures |segs| == segment + 1 && segs[segment] == s[start..|s|]
  {
    FirstDotUnique(s[start..], |s| - start);
    assert segs[segment] == segs[segment..][0];
    assert s[start..] == s[start..|s|];
  }

  /** Octet `i` is that of its segment if there is one and this and all before it are at
      most 255; otherwise it is the old one. */
  predicate StoredAt(segs: seq<seq<byte>>, address0: Ip, address: Ip, i: nat)
    requires i < 4
  {
    address[i] ==
      if i < |segs| && forall j :: 0 <= j <= i ==> SegmentValue(segs[j]) <= 255 then SegmentValue(segs[i]) % 0x100
      else address0[i]
  }

  lemma StoredIs(s: seq<byte>, address0: Ip, i: nat)
    requires i < 4
    ensures StoredAt(Segments(s), address0, Stored(s, address0), i)
  {
    var values := Values(Segments(s));
    var n := Fitting(values);
    if n <= i && n < |values| { assert SegmentValue(Segments(s)[n]) == values[n] > 255; }
  }

  // ----- What the shortcut is for -----

  predicate Digits(s: seq<byte>) {
    forall i :: 0 <= i < |s| ==> 48 <= s[i] <= 57
  }

  /** The decimal value, without a word size. */
  function Decimal(s: seq<byte>): nat
    requires Digits(s)
  {
    if s == [] then 0 else Decimal(s[..|s| - 1]) * 10 + (s[|s| - 1] as int - 48)
  }

  lemma DecimalAppend(s: seq<byte>, d: nat)
    requires Digits(s) && d < 10
    ensures Digits(s + [48 + d]) && Decimal(s + [48 + d]) == Decimal(s) * 10 + d
  {
    assert (s + [48 + d])[..|s|] == s;
  }

  /** Digits make their decimal value in a 16-bit `int`, however many there are. */
  lemma {:induction false} DigitsWrap(s: seq<byte>)
    requires Digits(s)
    ensures SegmentValue(s) == Signed16(Wrap16(Decimal(s)))
    decreases |s|
  {
    if s != [] {
      DigitsWrap(s[..|s| - 1]);
      DigitWraps(Decimal(s[..|s| - 1]), s[|s| - 1] - 48);
    }
  }

  lemma DigitWraps(value: nat, digit: nat)
    ensures Signed16(Wrap16(Signed16(Wrap16(value)) * 10 + digit)) == Signed16(Wrap16(value * 10 + digit))
  {
    var turns := value / 0x1_0000 + if value % 0x1_0000 < 0x8000 then 0 else 1;
    assert value == Signed16(Wrap16(value)) + turns * 0x1_0000;
    WrapTurns(Signed16(Wrap16(value)) * 10 + digit, turns * 10);
  }

  lemma WrapTurns(a: int, turns: int)
    ensures Wrap16(a) == Wrap16(a + turns * 0x1_0000)
  {
  }

  /** A segment of digits that fits a byte, as a caller means it. */
  predicate FitsByte(s: seq<byte>)
    requires Digits(s)
  {
    Decimal(s) <= 255
  }

  /** Too large, and found so: the wrapped value is in the upper part of an `int`. */
  predicate FoundTooLarge(s: seq<byte>)
    requires Digits(s)
  {
    256 <= Decimal(s) % 0x1_0000 < 0x8000
  }

  /** The comparison with 255 is right exactly for segments that fit or are found too
      large; from 32768 on the value may be negative or small again. */
  lemma SegmentJudgedRightlyIff(s: seq<byte>)
    requires Digits(s)
    ensures (SegmentValue(s) <= 255 <==> FitsByte(s)) <==> FitsByte(s) || FoundTooLarge(s)
    ensures SegmentValue(s) <= 255 <==> !FoundTooLarge(s)
    ensures SegmentValue(s) == Decimal(s) <==> Decimal(s) < 0x8000
  {
    DigitsWrap(s);
    WrappedComparison(Decimal(s));
  }

  lemma WrappedComparison(value: nat)
    ensures var v := Signed16(Wrap16(value));
      && (v <= 255 <==> !(256 <= value % 0x1_0000 < 0x8000))
      && (v == value <==> value < 0x8000)
  {
  }

  /** Whole strings of digits and dots are judged rightly exactly when there are too
      many segments, or one is found too large, or all fit. */
  lemma AddressJudgedRightlyIff(s: seq<byte>)
    requires forall i :: 0 <= i < |Segments(s)| ==> Digits(Segments(s)[i])
    ensures var segs := Segments(s);
      var meant := |segs| <= 4 && forall i :: 0 <= i < |segs| ==> FitsByte(segs[i]);
      (Accepted(Values(segs)) <==> meant) <==>
        meant || |segs| > 4 || exists i :: 0 <= i < |segs| && FoundTooLarge(segs[i])
  {
    var segs := Segments(s);
    forall i | 0 <= i < |segs|
      ensures Values(segs)[i] <= 255 <==> !FoundTooLarge(segs[i])
      ensures FitsByte(segs[i]) ==> !FoundTooLarge(segs[i])
    {
      SegmentJudgedRightlyIff(segs[i]);
    }
  }

  /** Decimal digits of an octet, as they are printed. */
  function Print(b: byte): seq<byte> {
    if b < 10 then [48 + b]
    else if b < 100 then [48 + b / 10, 48 + b % 10]
    else [48 + b / 100, 48 + b / 10 % 10, 48 + b % 10]
  }

  function PrintIp(ip: Ip): seq<byte> {
    Print(ip[0]) + [46] + (Print(ip[1]) + [46] + (Print(ip[2]) + [46] + Print(ip[3])))
  }

  lemma DecimalDigits(b: byte)
    ensures b / 10 < 100 && b / 100 < 10 && b % 10 < 10 && b / 10 % 10 < 10
    ensures b == 10 * (b / 10) + b % 10 == 100 * (b / 100) + 10 * (b / 10 % 10) + b % 10
    ensures b < 100 ==> b / 10 < 10
  {
  }

  lemma PrintedValue(b: byte)
    ensures Digits(Print(b)) && 1 <= |Print(b)| <= 3 && SegmentValue(Print(b)) == b
  {
    DecimalDigits(b);
    if b < 10 {
      ThreeDigits(0, 0, b);
    } else if b < 100 {
      ThreeDigits(0, b / 10, b % 10);
    } else {
      ThreeDigits(b / 100, b / 10 % 10, b % 10);
    }
    SegmentJudgedRightlyIff(Print(b));
  }

  lemma ThreeDigits(x: nat, y: nat, z: nat)
    requires x < 10 && y < 10 && z < 10
    ensures Digits([48 + x, 48 + y, 48 + z]) && Decimal([48 + z]) == z
    ensures Decimal([48 + y, 48 + z]) == 10 * y + z
    ensures Decimal([48 + x, 48 + y, 48 + z]) == 100 * x + 10 * y + z
  {
    OneDigit(x); OneDigit(y); OneDigit(z);
    DecimalAppend([48 + y], z);
    assert [48 + y] + [48 + z] == [48 + y, 48 + z];
    DecimalAppend([48 + x], y);
    assert [48 + x] + [48 + y] == [48 + x, 48 + y];
    DecimalAppend([48 + x, 48 + y], z);
    assert [48 + x, 48 + y] + [48 + z] == [48 + x, 48 + y, 48 + z];
  }

  lemma OneDigit(d: nat)
    requires d < 10
    ensures Digits([48 + d]) && Decimal([48 + d]) == d
  {
    assert [48 + d] == [] + [48 + d];
    DecimalAppend([], d);
  }

  /** Every address in dotted notation comes back as itself. */
  lemma AddressRoundTrip(ip: Ip, before: Ip)
    ensures Accepted(Values(Segments(PrintIp(ip)))) && Octets(Values(Segments(PrintIp(ip))), before) == ip
  {
    PrintedValue(ip[0]); PrintedValue(ip[1]); PrintedValue(ip[2]); PrintedValue(ip[3]);
    FourSegments(Print(ip[0]), Print(ip[1]), Print(ip[2]), Print(ip[3]));
    FourOctets(Values(Segments(PrintIp(ip))), ip, before);
  }

  lemma FourSegments(a: seq<byte>, b: seq<byte>, c: seq<byte>, d: seq<byte>)
    requires Digits(a) && Digits(b) && Digits(c) && Digits(d)
    ensures Segments(a + [DOT] + (b + [DOT] + (c + [DOT] + d))) == [a, b, c, d]
  {
    OnlySegment(d);
    NextSegment(c, d, [d]);
    NextSegment(b, c + [DOT] + d, [c, d]);
    NextSegment(a, b + [DOT] + (c + [DOT] + d), [b, c, d]);
  }

  lemma OnlySegment(d: seq<byte>)
    requires Digits(d)
    ensures Segments(d) == [d]
  {
    FirstDotUnique(d, |d|);
  }

  lemma FourOctets(values: seq<int>, ip: Ip, before: Ip)
    requires values == [ip[0], ip[1], ip[2], ip[3]]
    ensures Accepted(values) && Octets(values, before) == ip
  {
  }

  lemma NextSegment(a: seq<byte>, s: seq<byte>, segs: seq<seq<byte>>)
    requires Digits(a) && Segments(s) == segs
    ensures Segments(a + [DOT] + s) == [a] + segs
  {
    FirstDotUnique(a + [DOT] + s, |a|);
    assert (a + [DOT] + s)[..|a|] == a && (a + [DOT] + s)[|a| + 1..] == s;
  }

  /** What it accepts besides: host names of one letter. */
  lemma OneLetterIsAnAddress(c: byte, before: Ip)
    requires 97 <= c <= 122
    ensures Accepted(Values(Segments([c]))) && Octets(Values(Segments([c])), before) == [c - 48] + before[1..]
  {
    FirstDotUnique([c], 1);
    assert Segments([c]) == [[c]];
    OneCharacter(c);
    var o := Octets(Values([[c]]), before);
    assert o[0] == c - 48 && o[1] == before[1] && o[2] == before[2] && o[3] == before[3];
  }

  lemma OneCharacter(c: byte)
    requires 48 <= c < 0x80
    ensures SegmentValue([c]) == c - 48
  {
    assert [c][..0] == [];
  }

  /** One that slips through. */
  lemma SixtyFiveThousandIsZero()
    ensures var s: seq<byte> := [54] + [53] + [53] + [51] + [54];
      Digits(s) && Decimal(s) == 0x1_0000 && SegmentValue(s) == 0
  {
    assert [54] == [] + [54];
    DecimalAppend([], 6);
    DecimalAppend([54], 5);
    DecimalAppend([54] + [53], 5);
    DecimalAppend([54] + [53] + [53], 3);
    DecimalAppend([54] + [53] + [53] + [51], 6);
    DigitsWrap([54] + [53] + [53] + [51] + [54]);
  }
}
