/** Machine words: the widths the C code computes in, and the wrap-around it relies on. */
module Words {
  type u8 = x: int | 0 <= x < 0x100
  type u16 = x: int | 0 <= x < 0x1_0000
  type u32 = x: int | 0 <= x < 0x1_0000_0000

  datatype Option<+T> = None | Some(value: T)

  /** The value a 32-bit unsigned register keeps of an exact result. */
  function Wrap32(x: int): u32 {
    x % 0x1_0000_0000
  }

  /** Exchanges the two octets of a 16-bit word, as the network code does by hand. */
  function Swap16(x: u16): u16 {
    (x % 0x100) * 0x100 + x / 0x100
  }
}
