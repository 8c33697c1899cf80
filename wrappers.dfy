/** Optional values and results with an error, used where the game receives "no input"
    or where selecting an answer raises. */
module Wrappers {

  datatype Option<+T> = None | Some(value: T)

  datatype Result<+R, +E> = Success(value: R) | Failure(error: E)
}
