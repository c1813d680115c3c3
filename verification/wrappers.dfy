/** Optional values and results with an error, for the places where the
    JavaScript code yields `undefined`, `null` or throws. */
module Wrappers {

  datatype Option<+T> = None | Some(value: T)

  datatype Result<+R, +E> = Success(value: R) | Failure(error: E)
}
