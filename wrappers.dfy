/** Optional values: a C pointer that may be NULL, or an out-parameter that may be left unwritten. */
module Wrappers {
  datatype Option<+T> = None | Some(value: T)
}
