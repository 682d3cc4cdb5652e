/** Failure-carrying values shared by the rest of the model. */
module Wrappers {

  /** A value that may be absent. In a numeric series `None` stands for NaN. */
  datatype Option<+T> = None | Some(value: T)

  /** The outcome of a call that either returns a value or raises with a message. */
  datatype Result<+T, +E> = Success(value: T) | Failure(error: E)
}
