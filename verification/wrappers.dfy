/** Failure-carrying result type used for the error paths of the tensor routines. */
module Wrappers {

  /** Either a computed value or the error the tensor library raises instead. */
  datatype Result<+R, +E> = Success(value: R) | Failure(error: E)
}
