/** Optional values and results with an error, as used by the lookups and queries. */
module Wrappers {

  /** A value that may be absent; Python's `None` for a missing dictionary key. */
  datatype Option<+T> = None | Some(value: T)

  /** The outcome of a computation that may raise: a value or the error it stopped with. */
  datatype Result<+R, +E> = Ok(value: R) | Err(error: E)
}
