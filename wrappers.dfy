/** Failure-carrying return types used in place of the source's exceptions and `null` results. */
module Wrappers {

  /** A value that may be absent: the source's `null` / `undefined`. */
  datatype Option<+T> = None | Some(value: T)

  /** A value or the error that refused to produce it: the source's `throw`. */
  datatype Result<+R, +E> = Success(value: R) | Failure(error: E)
}
