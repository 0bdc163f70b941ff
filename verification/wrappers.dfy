/** Optional values and results with an error message, used wherever the
    source returns `nil` or an `error` beside a value. */
module Wrappers {

  datatype Option<+T> = None | Some(value: T)

  datatype Result<+T> = Success(value: T) | Failure(error: string)
}
