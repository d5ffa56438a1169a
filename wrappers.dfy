/** Optional values, used for "not present" and for "the call raised". */
module Wrappers {
  datatype Option<+T> = None | Some(value: T)
}
