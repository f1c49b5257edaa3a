/** Failure-compatible helper types shared by the other modules. */
module Wrappers {

  /** A value that may be absent; here, the result of a parse that fails. */
  datatype Option<+T> = None | Some(value: T)

  /** The result of a write that either succeeds or raises a storage error. */
  datatype Outcome<+E> = Pass | Fail(error: E)
}
