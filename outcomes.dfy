/** Optional values and results carrying the codec's errors. */
module Outcomes {

  datatype Option<T> = None | Some(value: T)

  datatype Result<T, E> = Success(value: T) | Failure(error: E)
}
