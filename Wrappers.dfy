/** Optional values and success-or-error results shared by the whole model. */
module Wrappers {

  /** An optional value; `None` stands for JavaScript's `undefined`/`null`. */
  datatype Option<+T> = None | Some(value: T)

  /** The outcome of an operation that either succeeds or throws a named error. */
  datatype Result<+T, +E> = Success(value: T) | Failure(error: E)
}
