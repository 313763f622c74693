/** Optional values, standing in for Kotlin's nullable types (`T?`). */
module Wrappers {

  datatype Option<+T> = None | Some(value: T)

  /** A value or the exception that prevented it. */
  datatype Result<+T, +E> = Ok(value: T) | Err(error: E)
}
