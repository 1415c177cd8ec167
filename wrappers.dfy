/** Failures the columns and the iterator report, in place of Java's exceptions. */
module Wrappers {

  datatype Failure =
    | Malformed             // restore data inconsistent with the column's layout
    | NoSuchElement         // java.util.NoSuchElementException
    | UnsupportedOperation  // java.lang.UnsupportedOperationException
    | BufferOverflow        // java.nio.BufferOverflowException
    | IndexOutOfBounds      // java.lang.IndexOutOfBoundsException and its array and string kinds

  datatype Result<+T> = Ok(value: T) | Err(error: Failure)

  datatype Outcome = Pass | Fail(error: Failure)
}
