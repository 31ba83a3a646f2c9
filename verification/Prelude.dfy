/** Shared vocabulary: bytes, documents, optional values and steps that may panic. */
module Prelude {

  type Byte = bv8

  /** The contents of a rope, read as one flat byte string. */
  type Doc = seq<Byte>

  datatype Option<+T> = None | Some(value: T)

  /** The result of code that may stop the program on a failed assertion or an underflow. */
  datatype Outcome<+T> = Ok(value: T) | Panic

  function Min(a: int, b: int): int {
    if a <= b then a else b
  }

  function Max(a: int, b: int): int {
    if a >= b then a else b
  }
}
