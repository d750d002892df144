/** Option, Result, the machine integers, minimum and maximum, shared by every module. */
module Wrappers {

  datatype Option<+T> = None | Some(value: T)

  datatype Result<+T, +E> = Ok(value: T) | Err(error: E)

  type U8 = x: int | 0 <= x < 0x100

  type U16 = x: int | 0 <= x < 0x1_0000

  const U32_MODULUS := 0x1_0000_0000

  type U32 = x: int | 0 <= x < U32_MODULUS

  function Min(a: nat, b: nat): nat {
    if a < b then a else b
  }

  function Max(a: nat, b: nat): nat {
    if a < b then b else a
  }
}
