/** The optional-value datatype shared by the scanners and the store. */
module Wrappers {
  datatype Option<+T> = None | Some(value: T)
}
