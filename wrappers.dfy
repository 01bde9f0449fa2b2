/** Optional values and results that carry an error, used where the
    TypeScript code tests for `null` and the Python code raises `ValueError`. */
module Wrappers {

  datatype Option<+T> = None | Some(value: T)

  datatype Result<+T, +E> = Success(value: T) | Failure(error: E)
}
