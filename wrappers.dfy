/** The optional value used where the source returns null or reports failure through a flag. */
module Wrappers {
  datatype Option<+T> = None | Some(value: T)
}
