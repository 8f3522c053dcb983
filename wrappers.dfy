/** A value that may be absent: here, a column cell that has not been filled in. */
module Wrappers {
  datatype Option<+T> = None | Some(value: T)
}
