/** Failure-carrying result types shared by every module of the model. */
module Outcomes {

  /** A value that may be absent (a null pointer, a missing option). */
  datatype Option<+T> = None | Some(value: T)

  /** Either a value or the reason the operation could not produce one. */
  datatype Result<+T, +E> = Ok(value: T) | Err(error: E)
}
