/** The optional value that the source expresses as `None` or an object. */
module Wrappers {
  datatype Option<+T> = None | Some(value: T)
}
