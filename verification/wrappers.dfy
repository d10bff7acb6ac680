/** Failure-carrying values shared by every module of the model. */
module Wrappers {

  /** A value that may be absent (a missing dictionary key, an error not raised). */
  datatype Option<+T> = None | Some(value: T)

  /** Either a value or the error that stopped the computation. */
  datatype Result<+T, +E> = Ok(value: T) | Err(error: E)
}
