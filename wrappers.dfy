/** Option and Result: the two shapes in which the model's environment and
    resolver hand back "nil or a value" and "a value or an error". */
module Wrappers {

  datatype Option<+T> = None | Some(value: T)

  datatype Result<+T, +E> = Success(value: T) | Failure(error: E)
}
