/** Failure-compatible wrapper used where the game can fail at run time. */
module Wrappers {

  /** The conventional Some/None datatype. */
  datatype Option<+T> = None | Some(value: T)
}
