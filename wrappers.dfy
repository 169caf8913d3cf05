/** Optional values, used for lookups that may find nothing and for Go's nil slices. */
module Wrappers {

  datatype Option<+T> = None | Some(value: T)
}
