/** Success-or-error results, standing in for the fatal log calls of the filter,
    and optional values. */
module Wrappers {
  datatype Result<+T, +E> = Success(value: T) | Failure(error: E)

  datatype Option<+T> = None | Some(value: T)
}
