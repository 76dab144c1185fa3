/** Optional values and error-or-value results, standing in for JavaScript's
    `null` and for exceptions caught by a `try`/`catch`. */
module Wrappers {

  /** A value that may be missing (`T | null` in the source). */
  datatype Option<+T> = None | Some(value: T)

  /** Either the new state (`Success`) or the error a call raised (`Failure`). */
  datatype Result<+R, +E> = Success(value: R) | Failure(error: E)
}
