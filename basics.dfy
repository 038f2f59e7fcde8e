/** Shared value types: bytes and the optional value returned by iterators and lookups. */
module Basics {

  /** An unsigned 8-bit value, as stored in the reference and target buffers. */
  type byte = x: int | 0 <= x < 256

  datatype Option<+T> = None | Some(value: T)

  function Min(x: nat, y: nat): nat
  {
    if x <= y then x else y
  }
}
