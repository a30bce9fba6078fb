/** Failure-carrying results: `None` / `Failure` stand for the points where the
    program would stop with a panic or an exception. */
module Wrappers {

  datatype Option<+T> = None | Some(value: T)

  datatype Result<+T, +E> = Success(value: T) | Failure(error: E)
}
