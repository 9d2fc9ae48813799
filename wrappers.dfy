/** The usual optional value, used for every "not found" and "rejected input" path. */
module Wrappers {
  datatype Option<+T> = None | Some(value: T)
}
