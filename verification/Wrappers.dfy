/** Failure-compatible wrappers shared by every module of the model. */
module Wrappers {

  /** A value that may be missing: a nullable column or an absent dictionary key. */
  datatype Option<+T> = None | Some(value: T)

  /** The outcome of a storage write or of a request: a value or an error. */
  datatype Result<+T, +E> = Ok(value: T) | Err(error: E)

  function Min(a: int, b: int): int
  {
    if a <= b then a else b
  }
}
