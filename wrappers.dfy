/** Optional values: a missing header, a failed parse, a thread that is skipped. */
module Wrappers {
  datatype Option<+T> = None | Some(value: T)
}
