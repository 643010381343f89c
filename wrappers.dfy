/** The optional value, for what Go returns as nil or non-nil. */
module Wrappers {
  datatype Option<+T> = None | Some(value: T)
}
