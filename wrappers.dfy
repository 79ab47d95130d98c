/** Option and Result: a value that may be missing, and a value or the error
    raised instead of it. */
module Wrappers {

  datatype Option<+T> = None | Some(value: T)

  datatype Result<+R, +E> = Success(value: R) | Failure(error: E)
}
