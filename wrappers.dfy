/** Option and Result, standing for JavaScript's `null`/`undefined` and for
    the exceptions a built-in throws. */
module Wrappers {

  datatype Option<+T> = None | Some(value: T)

  datatype Result<+R, +E> = Success(value: R) | Failure(error: E)
}
