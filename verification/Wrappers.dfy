/** Values that may be missing: C's NULL for strings and records. */
module Wrappers {
  datatype Option<T> = None | Some(value: T)
}
