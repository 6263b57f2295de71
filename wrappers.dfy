/** Small failure-carrying datatypes shared by the other modules. */
module Wrappers {

  /** A value that may be absent, e.g. the last spike of a neuron that has never fired. */
  datatype Option<+T> = None | Some(value: T)

  /** The verdict of a check that either passes or fails with an error. */
  datatype Outcome<+E> = Pass | Fail(error: E)
}
