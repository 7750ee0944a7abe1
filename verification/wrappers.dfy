/** Optional values, standing in for `null`, `undefined` and absent keys. */
module Wrappers {
  datatype Option<+T> = None | Some(value: T)
}
