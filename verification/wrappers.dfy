/** Optional values, for the null pointers the simulator returns. */
module Wrappers {
  datatype Option<T> = None | Some(value: T)
}
