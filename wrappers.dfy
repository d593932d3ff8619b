/**
 * Outcomes shared by the containers: Java's `null` results and the
 * exceptions the containers throw, written as values.
 */
module Wrappers {

  /** A value or Java's `null`. */
  datatype Option<+T> = None | Some(value: T)

  /** The unchecked exceptions the containers raise. */
  datatype Exception =
    | IndexOutOfBounds        // IndexOutOfBoundsException from an explicit index check
    | ArrayIndexOutOfBounds   // thrown by an array access or by System.arraycopy
    | NoSuchElement           // NoSuchElementException
    | NullPointer             // NullPointerException

  /** A result value, or the exception that was thrown instead. */
  datatype Result<+R> = Success(value: R) | Failure(error: Exception)

  /** Normal completion of a `void` operation, or the exception it threw. */
  datatype Outcome = Pass | Fail(error: Exception)
}
