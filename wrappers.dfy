/** Option and Result: the optional `error` field of a validation result and
    the outcome of a filesystem call that may throw. */
module Wrappers {

  datatype Option<+T> = None | Some(value: T)

  datatype Result<+T, +E> = Success(value: T) | Failure(error: E)
}
