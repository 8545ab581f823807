/** Stock result types shared by the models. */
module Prelude {

  datatype Option<+T> = None | Some(value: T)

  /** A computed value, or the class of exception the code raises instead. */
  datatype Result<+T, +E> = Ok(value: T) | Err(error: E)

  type byte = x: int | 0 <= x < 256

  type Bytes = seq<byte>

  function Min(a: int, b: int): int { if a <= b then a else b }

  function Max(a: int, b: int): int { if a >= b then a else b }
}
