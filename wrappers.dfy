/** The optional value used wherever the scripts may produce nothing. */
module Wrappers {
  datatype Option<+T> = None | Some(value: T)
}
