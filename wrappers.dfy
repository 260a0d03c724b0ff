/** Failure-carrying values: `Option` for a computation that may produce
    nothing, `Result` for a Swift function that may `throw`. */
module Wrappers {

  datatype Option<+T> = None | Some(value: T)

  datatype Result<+R, +E> = Success(value: R) | Failure(error: E)
}
