/** Outcomes of operations that the Java code can end with an exception:
    a value, or the exception class that would be thrown. */
module Results {

  /** The exception classes the modelled code throws. */
  datatype Exception =
    | IllegalArgument
    | IllegalState
    | IndexOutOfBounds
    | NullPointer

  datatype Result<+T> = Success(value: T) | Failure(error: Exception)

  /** A reference that may be null. */
  datatype Option<+T> = None | Some(value: T)
}
