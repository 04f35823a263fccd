/** Optional values and results with an error, used for absent map entries,
    regex matches that fail and calls into the container runtime that fail. */
module Wrappers {

  datatype Option<+T> = None | Some(value: T)

  datatype Result<+T, +E> = Success(value: T) | Failure(error: E)
}
