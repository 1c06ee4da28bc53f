/** Optional values, for the outcomes where the modelled code raises. */
module Wrappers {
  datatype Option<T> = None | Some(value: T)
}
