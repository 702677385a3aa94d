/** Optional values, for the fields and results that JavaScript leaves `undefined` or `null`. */
module Wrappers {
  datatype Option<+T> = None | Some(value: T)
}
