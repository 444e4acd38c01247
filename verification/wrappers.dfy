/** Failure-carrying datatypes shared by every module of the model. */
module Wrappers {

  /** An optional value: the source's `None` (or JavaScript's `undefined`) versus a present value. */
  datatype Option<+T> = None | Some(value: T)

  /** A computation that either produced a value or raised the error `error`. */
  datatype Result<+T, +E> = Ok(value: T) | Err(error: E)
}
