/** Optional values and results with an error alternative, for the scripts'
    `undefined` values and raised exceptions. */
module Wrappers {

  datatype Option<T> = None | Some(value: T)

  datatype Result<T, E> = Success(value: T) | Failure(error: E)
}
