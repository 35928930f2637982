/** The value-or-error datatypes the model's partial operations return. */
module Wrappers {
  datatype Option<T> = None | Some(value: T)

  datatype Result<R, E> = Success(value: R) | Failure(error: E)
}
