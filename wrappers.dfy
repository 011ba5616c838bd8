/** The optional value used where a Python helper returns a value or nothing. */
module Wrappers {
  datatype Option<+T> = None | Some(value: T)
}
