/** Optional values: Kotlin's nullable types (`T?`) in this model. */
module Wrappers {
  datatype Option<+T> = None | Some(value: T)
}
