/** A value that may be missing: NULL, null or undefined, or an error where the source throws one. */
module Wrappers {
  datatype Option<+T> = None | Some(value: T)
}
