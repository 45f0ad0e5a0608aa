/** Machine integer widths and the optional-value wrapper shared by every module. */
module Types {

  /** An unsigned byte (`u8`). */
  type u8 = x: int | 0 <= x < 0x100

  /** An unsigned 32-bit value (`u32`). */
  type u32 = x: int | 0 <= x < 0x1_0000_0000

  /** An unsigned 64-bit value (`u64`), the width of the shared state word. */
  type u64 = x: int | 0 <= x < 0x1_0000_0000_0000_0000

  /** The number of distinct `u32` values: `as u32` reduces modulo this. */
  const U32_MODULUS: nat := 0x1_0000_0000

  /** A value that may be absent; `None` also stands for a panic of the source. */
  datatype Option<+T> = None | Some(value: T)
}
