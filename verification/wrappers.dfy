/** Optional values, used wherever a Python lookup or regex search may find nothing. */
module Wrappers {
  datatype Option<+T> = None | Some(value: T)
}
