/** Success/failure of an operation that returns nothing on success. */
module Wrappers {

  /** `Pass` when the operation completed, `Fail(e)` when it raised `e`. */
  datatype Outcome<+E> = Pass | Fail(error: E)
}
