/** Failure-compatible wrappers used by the interner model. */
module Wrappers {

  /** An optional value: what `Option<NonZeroU32>` is in the interner. */
  datatype Option<+T> = None | Some(value: T)

  /** A value or an error: what a fallible operation returns. */
  datatype Result<+R, +E> = Success(value: R) | Failure(error: E)
}
