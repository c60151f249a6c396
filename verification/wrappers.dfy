/** Wrappers used throughout the model: a Python value that may be absent (a
    missing dictionary key, an unset optional field, `None`) is an `Option`;
    an operation that raises is a `Result`. */
module Wrappers {

  datatype Option<+T> = None | Some(value: T)

  datatype Result<+R, +E> = Success(value: R) | Failure(error: E)
}
