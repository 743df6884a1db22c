/** Small failure-carrying datatypes shared by the model. */
module Wrappers {

  /** A value that may be absent: a missing map entry, or a number that did not parse. */
  datatype Option<+T> = None | Some(value: T)

  /** What a Django validator does: return normally (`Pass`) or raise `ValidationError` (`Fail`). */
  datatype Outcome<+E> = Pass | Fail(error: E)
}
