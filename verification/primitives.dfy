/** Rust's machine integer type, as the crate uses it. */
module Primitives {

  /** `usize` on a 64-bit target. The modelled code only compares and
      stores such values, so no wrap-around arises. */
  newtype Usize = x: int | 0 <= x < 0x1_0000_0000_0000_0000
}
