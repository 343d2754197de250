/** The optional-value datatype used for absent map entries and for failed file-system steps. */
module Wrappers {
  datatype Option<+T> = None | Some(value: T)
}
