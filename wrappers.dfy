/** Optional values and error-carrying results, as used by every handler of the model. */
module Wrappers {

  /** A value that may be absent: a missing JSON field, a NULL column, a search that found nothing. */
  datatype Option<+T> = None | Some(value: T)

  /** The outcome of a handler that either succeeds or answers with an error. */
  datatype Outcome<+E> = Pass | Fail(error: E)

  /** The outcome of a handler that answers with a value on success. */
  datatype Result<+T, +E> = Ok(value: T) | Err(error: E)
}
