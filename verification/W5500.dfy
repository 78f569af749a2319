/** The W5500 driver's control bytes: block and socket number share one byte. */
module W5500 {
  import opened Words

  /** The bases added to the socket number in bits 5 to 7. */
  datatype Block = RegisterRead | RegisterWrite | TxBufferWrite | RxBufferRead {
    function Base(): byte {
      match this
      case RegisterRead => 0x08
      case RegisterWrite => 0x0C
      case TxBufferWrite => 0x14
      case RxBufferRead => 0x18
    }
  }

  /** `(s << 5) + base`, truncated to `uint8_t`. */
  function ControlByte(s: nat, b: Block): byte {
    (s * 32 + b.Base()) % 0x100
  }

  /** Bits 3 and 4 select the block, bit 2 writes, bits 5 to 7 are the socket. */
  lemma ControlByteFields(s: nat, b: Block)
    requires s < 8
    ensures var c := ControlByte(s, b);
      && c / 32 == s
      && c / 8 % 4 == (if b.TxBufferWrite? then 2 else if b.RxBufferRead? then 3 else 1)
      && (c / 4 % 2 == 1 <==> b.RegisterWrite? || b.TxBufferWrite?)
      && c % 4 == 0
  {
    Fields(s, b.Base() / 8, b.Base() / 4 % 2);
  }

  lemma Fields(s: nat, block: nat, write: nat)
    requires s < 8 && block < 4 && write < 2
    ensures var c := s * 32 + block * 8 + write * 4;
      c < 0x100 && c / 32 == s && c / 8 % 4 == block && c / 4 % 2 == write && c % 4 == 0
  {
  }

  /** No two accesses of different sockets or kinds share a control byte. */
  lemma ControlBytesAreDistinct(s: nat, a: Block, t: nat, b: Block)
    requires s < 8 && t < 8
    ensures ControlByte(s, a) == ControlByte(t, b) <==> s == t && a == b
  {
    ControlByteFields(s, a);
    ControlByteFields(t, b);
  }
}
