/** A value that may be missing: a null pointer or an absent result in the source. */
module Wrappers {
  datatype Option<T> = None | Some(value: T)
}
