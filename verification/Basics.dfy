/** Types shared by every module: bytes, fixed-width integers and failure-carrying results. */
module Basics {

  type byte = x: int | 0 <= x < 0x100

  type u16 = x: int | 0 <= x < 0x1_0000

  type u32 = x: int | 0 <= x < 0x1_0000_0000

  type u64 = x: int | 0 <= x < 0x1_0000_0000_0000_0000

  type i64 = x: int | -0x8000_0000_0000_0000 <= x < 0x8000_0000_0000_0000

  type Bytes = seq<byte>

  const U32_MAX: u32 := 0xffff_ffff

  datatype Option<+T> = None | Some(value: T)

  datatype Result<+T, +E> = Ok(value: T) | Err(error: E)

  /** Rust's `u32::saturating_add(1)`. */
  function SaturatingIncrement(x: u32): (r: u32)
    ensures x < r || r == x == U32_MAX
  {
    if x < U32_MAX then x + 1 else x
  }

  /** The code points with Unicode property `White_Space`, which `str::trim` strips. */
  predicate IsWhiteSpace(codePoint: int) {
    0x9 <= codePoint <= 0xd || codePoint == 0x20 || codePoint == 0x85 || codePoint == 0xa0 || codePoint == 0x1680
    || 0x2000 <= codePoint <= 0x200a || codePoint == 0x2028 || codePoint == 0x2029 || codePoint == 0x202f
    || codePoint == 0x205f || codePoint == 0x3000
  }
}
