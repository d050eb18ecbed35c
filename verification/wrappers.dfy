/** Optional values and results that carry an error, as the scanner's
    fields (initially unset) and its index errors need them. */
module Wrappers {

  datatype Option<+T> = None | Some(value: T)

  datatype Result<+T, +E> = Success(value: T) | Failure(error: E)
}
