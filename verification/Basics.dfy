/** C's unsigned integers, the end of a C string, and a result that may be missing. */
module Basics {

  const U32: nat := 0x1_0000_0000
  const U64: nat := 0x1_0000_0000_0000_0000

  type u32 = x: nat | x < U32
  type u64 = x: nat | x < U64

  const NUL: char := '\0'

  datatype Option<T> = None | Some(value: T)
}
