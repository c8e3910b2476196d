/** Option and Result, used in place of Python's `None` / `float('inf')`
    sentinels and of the exceptions the planners raise. */
module Wrappers {

  datatype Option<+T> = None | Some(value: T)

  datatype Result<+T, +E> = Success(value: T) | Failure(error: E)
}
