/** Failure-carrying datatypes shared by every module of the model. */
module Wrappers {

  /** A value that may be absent: JavaScript's `undefined`, Python's `None`. */
  datatype Option<+T> = None | Some(value: T)

  /** The outcome of an operation that the original code lets throw. */
  datatype Result<+T, +E> = Ok(value: T) | Err(error: E)
}
