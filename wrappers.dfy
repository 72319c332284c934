/** Optional values: a Go value that may be nil, or a SQL column that may be NULL. */
module Wrappers {

  datatype Option<+T> = None | Some(value: T)
}
