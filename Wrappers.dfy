/** Optional values, the counterpart of Swift's `Optional`. */
module Wrappers {

  datatype Option<+T> = None | Some(value: T)

}
