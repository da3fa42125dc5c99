/** Failure-carrying results used throughout the model: an optional value
    (a JavaScript `undefined`/`null`) and a value-or-error outcome (a call
    that either returns or throws). */
module Wrappers {

  datatype Option<+T> = None | Some(value: T)

  datatype Result<+R, +E> = Success(value: R) | Failure(error: E)
}
