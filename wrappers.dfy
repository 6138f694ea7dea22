/** Optional values: Swift's `T?` in the modelled code. */
module Wrappers {
  datatype Option<+T> = None | Some(value: T)
}
