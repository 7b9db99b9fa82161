/** Optional values and results with an error, used for the encoder's
    missing inputs and its validation failures. */
module Wrappers {

  datatype Option<+T> = None | Some(value: T)

  datatype Result<+R, +E> = Success(value: R) | Failure(error: E)
}
