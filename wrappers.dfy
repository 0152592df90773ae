/** Failure-carrying values shared by the modules of this project. */
module Wrappers {

  /** A value that may be missing: a driver read that threw, a string that does not parse. */
  datatype Option<+T> = None | Some(value: T)
}
