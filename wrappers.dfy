/** Optional values: a JSON field that may be absent, a file list that may be empty. */
module Wrappers {
  datatype Option<+T> = None | Some(value: T)
}
