/** `Option`, a value that may be missing (a Go `error` that may be nil, a
    parse that may fail), and `Result`, the outcome of an operation that either
    yields a value or fails with an error. */
module Wrappers {

  datatype Option<+T> = None | Some(value: T)

  datatype Result<+R, +E> = Success(value: R) | Failure(error: E)
}
