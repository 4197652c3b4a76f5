/** The result types shared by the modules. */
module Wrappers {

  /** A pointer that may be NULL. */
  datatype Option<+T> = None | Some(value: T)
}
