/** Option and Result, the shapes the model uses for "may be absent" and "may throw". */
module Wrappers {

  datatype Option<+T> = None | Some(value: T)

  /** The outcome of an operation that either yields a value or fails with a message. */
  datatype Result<+T, +E> = Success(value: T) | Failure(error: E)
}
