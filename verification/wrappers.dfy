/** Optional values, shared by the modules that report an absent result. */
module Wrappers {
  datatype Option<T> = None | Some(value: T)
}
