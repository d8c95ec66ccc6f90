/** An optional value: a form field that may be empty, a lookup that may miss. */
module Wrappers {
  datatype Option<+T> = None | Some(value: T)
}
