/** The two failure-carrying wrappers of the model: Option for a Go value that
    may be nil, Result for a call that either yields a value or fails. */
module Wrappers {

  datatype Option<+T> = None | Some(value: T)

  datatype Result<+T, +E> = Success(value: T) | Failure(error: E)
}
