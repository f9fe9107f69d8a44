/** The optional value used wherever the source returns null or reports failure through a bool. */
module Wrappers {
  datatype Option<+T> = None | Some(value: T)
}
