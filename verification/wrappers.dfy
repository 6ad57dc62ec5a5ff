/** The optional-value datatype shared by the modules of this project. */
module Wrappers {

  /** A value that may be absent: used for lookups that can miss and for
      inputs whose handling is not modelled. */
  datatype Option<+T> = None | Some(value: T)
}
