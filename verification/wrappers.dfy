/** Failure-carrying datatypes shared by the model. */
module Wrappers {

  /** A value that may be absent. */
  datatype Option<+T> = None | Some(value: T)

  /** The effect of a statement that either completes normally or throws `error`. */
  datatype Outcome<+E> = Pass | Fail(error: E)
}
