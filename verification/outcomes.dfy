/**
 * Success/failure values: the model's stand-in for the exceptions the
 * sources throw and for Kotlin's nullable values.
 */
module Outcomes {

  /** A value that may be absent (`null` in the sources). */
  datatype Option<+T> = None | Some(value: T)

  /** Either a result or the reason the computation failed. */
  datatype Result<+T, +E> = Ok(value: T) | Err(error: E)
}
