/** Optional values and results with an error, used wherever the viewer's
    JavaScript yields `undefined`, `NaN` or throws. */
module Wrappers {

  datatype Option<+T> = None | Some(value: T)

  datatype Result<+R, +E> = Success(value: R) | Failure(error: E)
}
