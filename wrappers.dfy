/** Optional values, for results the source only sometimes produces. */
module Wrappers {
  datatype Option<+T> = None | Some(value: T)
}
