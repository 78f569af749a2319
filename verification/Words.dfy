/** Fixed-width integers of the AVR target: 8-, 16- and 32-bit words, and the
    byte orders in which the library stores them. */
module Words {

  type byte = x: int | 0 <= x < 0x100
  type u16 = x: int | 0 <= x < 0x1_0000
  type u32 = x: int | 0 <= x < 0x1_0000_0000

  function Wrap16(x: int): u16 { x % 0x1_0000 }

  function Wrap32(x: int): u32 { x % 0x1_0000_0000 }

  lemma WrapOfSum(a: int, b: int)
    ensures Wrap16(Wrap16(a) + b) == Wrap16(a + b)
    ensures Wrap16(a + Wrap16(b)) == Wrap16(a + b)
  {
  }

  /** Distance between two free-running pointers. */
  lemma WrapOfDistance(a: u16, n: u16)
    ensures Wrap16(Wrap16(a + n) - a) == n
  {
  }

  /** The `(int)` and `(long)` casts: two's complement. */
  function Signed16(x: u16): int { if x < 0x8000 then x else x - 0x1_0000 }

  function Signed32(x: u32): int { if x < 0x8000_0000 then x else x - 0x1_0000_0000 }

  function Hi(x: u16): byte { x / 0x100 }

  function Lo(x: u16): byte { x % 0x100 }

  function Join(hi: byte, lo: byte): u16 { hi * 0x100 + lo }

  /** Network byte order. */
  function Be16(x: u16): (s: seq<byte>) { [Hi(x), Lo(x)] }

  function Be32(x: u32): (s: seq<byte>) { Be16(x / 0x1_0000) + Be16(x % 0x1_0000) }

  function FromBe16(s: seq<byte>): u16
    requires |s| == 2
  {
    Join(s[0], s[1])
  }

  function FromBe32(s: seq<byte>): u32
    requires |s| == 4
  {
    Join32(FromBe16(s[..2]), FromBe16(s[2..]))
  }

  function Join32(high: u16, low: u16): u32 { high * 0x1_0000 + low }

  /** The AVR keeps words in memory low byte first. */
  function Le16(x: u16): (s: seq<byte>) { [Lo(x), Hi(x)] }

  function Le32(x: u32): (s: seq<byte>) { Le16(x % 0x1_0000) + Le16(x / 0x1_0000) }

  lemma Be16RoundTrip(x: u16)
    ensures FromBe16(Be16(x)) == x
  {
  }

  lemma Be32RoundTrip(x: u32)
    ensures FromBe32(Be32(x)) == x
  {
    assert Be32(x)[..2] == Be16(x / 0x1_0000) && Be32(x)[2..] == Be16(x % 0x1_0000);
  }

  function Min(a: int, b: int): int { if a < b then a else b }

  function Max(a: int, b: int): int { if a < b then b else a }

  lemma Regroup(a: seq<byte>, b: seq<byte>, c: seq<byte>)
    ensures a + b + c == a + (b + c)
  {
  }
}
