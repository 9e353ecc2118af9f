/** Optional values, for the Go functions that return a value or an error
    next to their result. */
module Wrappers {

  datatype Option<T> = None | Some(value: T)
}
