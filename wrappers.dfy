/** Failure-carrying datatypes shared by the whole model. */
module Wrappers {

  /** A value that may be missing. */
  datatype Option<+T> = None | Some(value: T)

  /** The outcome of an operation that can fail with an error of type E. */
  datatype Result<+T, +E> = Ok(value: T) | Err(error: E)

  /** A JavaScript value that may be `undefined` or `null` (both are "nullish"). */
  datatype Nullish<+T> = Undefined | Null | Present(value: T)
}
