/** Optional values and results that carry an error message, standing in for
    JavaScript's `null`/`undefined` and for thrown `Error`s. */
module Wrappers {

  datatype Option<+T> = None | Some(value: T)

  datatype Result<+R, +E> = Success(value: R) | Failure(error: E)
}
