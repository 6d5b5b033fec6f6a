/** Shared value types. */
module Wrappers {
  datatype Option<+T> = None | Some(value: T)

  /** An eight-bit unsigned value. */
  type byte = x: int | 0 <= x < 256

  const U32_LIMIT: nat := 0x1_0000_0000
  const U64_LIMIT: nat := 0x1_0000_0000_0000_0000

  function Min(a: nat, b: nat): nat {
    if a <= b then a else b
  }
}
