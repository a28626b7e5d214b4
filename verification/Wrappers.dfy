/** A value that may be missing: null pointers, and the "not found" of lookups. */
module Wrappers {
  datatype Option<+T> = None | Some(value: T)
}
