/** Option and Result values, standing in for JavaScript's `undefined`
    and for an exception that escapes a function. */
module Wrappers {

  datatype Option<+T> = None | Some(value: T)

  datatype Result<+T, +E> = Success(value: T) | Failure(error: E)
}
