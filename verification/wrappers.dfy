/** Failure-carrying datatypes used where the source yields `undefined`, `NaN`
    or throws instead of returning an ordinary value. */
module Wrappers {

  /** A value that may be absent (the source's `undefined` or `NaN`). */
  datatype Option<+T> = None | Some(value: T)

  /** A value, or the reason the source would have failed to produce one. */
  datatype Result<+R, +E> = Success(value: R) | Failure(error: E)
}
