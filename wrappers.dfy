/** The optional value used for pointers that may be nil. */
module Wrappers {
  datatype Option<+T> = None | Some(value: T)
}
