/** Optional values, for the nullable caches and the converters' type tests. */
module Wrappers {
  datatype Option<T> = None | Some(value: T)
}
