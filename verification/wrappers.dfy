/** The `Option` and `Result` datatypes shared by every module of the model.
    `Option` stands for Go's nil-able interface values, `Result` for a
    `(value, error)` pair whose error is either nil or not. */
module Wrappers {

  datatype Option<+T> = None | Some(value: T)

  datatype Result<+T, +E> = Success(value: T) | Failure(error: E)
}
