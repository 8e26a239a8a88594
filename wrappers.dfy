/** Failure-carrying values used throughout the model: a missing value, and a
    result that is either a value or an error. */
module Wrappers {

  datatype Option<T> = None | Some(value: T)

  datatype Result<T, E> = Ok(value: T) | Err(error: E)

  /** Pass/fail with a reason, for operations that return nothing on success. */
  datatype Outcome<E> = Pass | Fail(error: E)
}
