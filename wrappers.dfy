/**
 * Option, Result and Outcome datatypes used wherever the Java code returns a
 * nullable value or throws one of the exceptions listed in `Error`.
 */
module Wrappers {

  /** The unchecked Java exceptions that the modelled classes throw on purpose. */
  datatype Error =
    | IllegalArgument      // java.lang.IllegalArgumentException
    | IllegalState         // java.lang.IllegalStateException
    | NoSuchElement        // java.util.NoSuchElementException
    | UnsupportedOperation // java.lang.UnsupportedOperationException

  datatype Option<+T> = None | Some(value: T)

  /** The value a Java method returns, or the exception it throws. */
  datatype Result<+T> = Success(value: T) | Failure(error: Error)

  /** A `void` Java method that either completes or throws. */
  datatype Outcome = Pass | Fail(error: Error)
}
