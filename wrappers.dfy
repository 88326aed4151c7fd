/** The optional value used wherever the source returns `None` or reads a missing setting. */
module Wrappers {

  datatype Option<+T> = None | Some(value: T)
}
