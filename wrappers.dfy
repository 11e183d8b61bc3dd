/** The usual optional value, used for a cell that may be null. */
module Wrappers {
  datatype Option<+T> = None | Some(value: T)
}
