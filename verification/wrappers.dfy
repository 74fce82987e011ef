/** The optional-value and success-or-failure datatypes the rest of the
    model uses in place of JavaScript's `undefined` and thrown exceptions. */
module Wrappers {

  /** A value that may be absent (`undefined` / `null` in the source). */
  datatype Option<+T> = None | Some(value: T)

  /** The outcome of a call that either returns a value or throws. */
  datatype Result<+R, +E> = Success(value: R) | Failure(error: E)
}
