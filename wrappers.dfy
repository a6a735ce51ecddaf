/** The optional value that a lookup or an absent request field produces. */
module Wrappers {
  datatype Option<+T> = None | Some(value: T)
}
