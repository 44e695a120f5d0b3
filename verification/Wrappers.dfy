/** Failure-free stand-ins for null pointers and thrown exceptions. */
module Wrappers {
  datatype Option<+T> = None | Some(value: T)
}
