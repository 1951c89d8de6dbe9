/** Optional values and results with an error value, used where the modelled
    code either finds nothing or would divide by zero. */
module Outcomes {

  datatype Option<+T> = None | Some(value: T)

  datatype Result<+T, +E> = Success(value: T) | Failure(error: E)
}
