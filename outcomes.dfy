/** The exceptions the modelled operations throw, as values. */
module Outcomes {
  /** The .NET exception type an operation ends with. */
  datatype Error =
    | ArgumentNull        // ArgumentNullException: a folder name that is null
    | FileNotFound        // FileNotFoundException
    | DirectoryNotFound   // DirectoryNotFoundException
    | IOFailure           // IOException: the target exists, or a file stands where a folder must be
    | UnauthorizedAccess  // UnauthorizedAccessException: a folder where a file was expected
    | Overflow            // OverflowException: an array of negative length
    | InvalidOperation    // InvalidOperationException

  /** A call that returns normally (`Pass`) or throws. */
  datatype Outcome = Pass | Fail(error: Error)

  /** A reference that may be null. */
  datatype Option<T> = None | Some(value: T)

  datatype Result<T> = Success(value: T) | Failure(error: Error)

  /** The exception that surfaces when two tasks are awaited in order. */
  function First(a: Outcome, b: Outcome): Outcome {
    if a.Fail? then a else b
  }
}
