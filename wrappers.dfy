/** Optional values and results with an error, as the application's `undefined`/`null`
    and thrown `Error`s are modelled. */
module Wrappers {

  datatype Option<+T> = None | Some(value: T)

  datatype Result<+T, +E> = Success(value: T) | Failure(error: E)
}
