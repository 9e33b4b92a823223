/** Optional values and results with an error, used where the Go code returns
    a nil pointer, a `(value, ok)` pair or a `(value, error)` pair. */
module Wrappers {

  datatype Option<+T> = None | Some(value: T)

  datatype Result<+T, +E> = Success(value: T) | Failure(error: E)
}
