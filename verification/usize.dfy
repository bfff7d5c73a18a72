/** Machine integer widths used by the editor and the saturating arithmetic
    Rust offers on them. The target is taken to be 64-bit, so `usize` ranges
    over [0, 2^64). */
module Usize {

  const USIZE_MAX: nat := 0xFFFF_FFFF_FFFF_FFFF

  type usize = x: nat | x <= USIZE_MAX

  type u16 = x: nat | x < 0x1_0000

  function Min(a: nat, b: nat): nat {
    if a <= b then a else b
  }

  /** `usize::saturating_sub`: never goes below zero */
  function SatSub(a: usize, b: usize): usize {
    if a >= b then a - b else 0
  }

  /** `usize::saturating_add`: never goes above USIZE_MAX */
  function SatAdd(a: usize, b: usize): usize {
    if a + b <= USIZE_MAX then a + b else USIZE_MAX
  }
}
