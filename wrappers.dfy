/** Failure-compatible wrappers: `Option` stands for a JavaScript value that may be
    `null`, `Result` for an operation that either produces a value or refuses. */
module Wrappers {

  datatype Option<+T> = None | Some(value: T)

  datatype Result<+R, +E> = Success(value: R) | Failure(error: E)
}
