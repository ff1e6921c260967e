/** Option and Result, as the Rust code uses them. */
module Wrappers {

  datatype Option<+T> = None | Some(value: T)

  /** `Result<T, E>`: `Ok(value)` is `Success`, `Err(error)` is `Failure`. */
  datatype Result<+T, +E> = Success(value: T) | Failure(error: E)
}
