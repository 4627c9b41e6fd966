/** The optional value used wherever the source returns an object or `null`. */
module Wrappers {
  datatype Option<+T> = None | Some(value: T)
}
