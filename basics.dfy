/** Fixed-width integers of the C code and a few small helpers shared by the modules. */
module Basics {

  /** C `int16_t`: one audio sample. */
  newtype int16 = x: int | -0x8000 <= x < 0x8000

  /** C `uint16_t`: a node id in the node pool. */
  newtype uint16 = x: int | 0 <= x < 0x1_0000

  /** C `uint8_t`. */
  newtype uint8 = x: int | 0 <= x < 0x100

  /** A slot that may hold a value, in place of a pointer that may be NULL. */
  datatype Option<T> = None | Some(value: T)

  function Min(a: nat, b: nat): nat { if a < b then a else b }

  function Max(a: nat, b: nat): nat { if a < b then b else a }
}
