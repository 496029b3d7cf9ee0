/** Optional values: stands in for a result that may be `undefined`. */
module Wrappers {

  datatype Option<+T> = None | Some(value: T)
}
