/** Optional values: a JavaScript field that may be undefined, null or present. */
module Wrappers {
  datatype Option<+T> = None | Some(value: T)
}
