/** Basic values shared by the codec and the arrays: bytes, fixed-width
    unsigned integers, and the Option / Result shapes the Rust code uses. */
module Wrappers {

  /** An unsigned 8-bit value, as Rust's `u8`. */
  type Byte = x: int | 0 <= x < 0x100

  /** Rust's `u64`; `usize` is taken to be the same width. */
  const TwoTo64: nat := 0x1_0000_0000_0000_0000
  type U64 = x: int | 0 <= x < TwoTo64

  datatype Option<+T> = None | Some(value: T)

  datatype Result<+T, +E> = Ok(value: T) | Err(error: E)
}
