/** Failure-compatible result and optional values, used for the exceptions
    the modelled Java code can throw and for "contributes nothing". */
module Wrappers {

  datatype Option<+T> = None | Some(value: T)

  datatype Result<+T, +E> = Success(value: T) | Failure(error: E)
}
