/** Optional values (the source's nullable references) and results (the
    source's thrown exceptions). */
module Wrappers {

  datatype Option<+T> = None | Some(value: T)

  datatype Result<+T, +E> = Success(value: T) | Failure(error: E)
}
