/** Optional values and results with an error, used where the modelled code
    returns `None` or lets an exception escape. */
module Wrappers {

  datatype Option<+T> = None | Some(value: T)

  datatype Result<+R, +E> = Success(value: R) | Failure(error: E)
}
