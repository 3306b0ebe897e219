/** Plain result types shared by the codec and the request handlers. */
module Wrappers {

  datatype Option<+T> = None | Some(value: T)

  /** The outcome of a handler that returns a value or a rejection. */
  datatype Result<+R, +E> = Success(value: R) | Failure(error: E)

  /** The outcome of a handler that returns no value on success. */
  datatype Outcome<+E> = Pass | Fail(error: E)
}
