/** The exceptions the allocators raise, and the result types that carry them. */
module Errors {
  /** One constructor per exception an operation of the allocators can end with. */
  datatype Error =
    | OutOfMemory     // no free chunk is large enough for the request
    | InvalidPointer  // no allocated chunk matches the given pointer, or it does not fit its buffer
    | InvalidWrite    // a value longer than the span it is written to
    | ValueError      // a memoryview slice assignment whose value has another length than the slice
    | IndexError      // a list indexed past its end

  datatype Option<T> = None | Some(value: T)

  /** What an operation that returns a value ends with. */
  datatype Result<T> = Success(value: T) | Failure(error: Error)

  /** What an operation that returns nothing ends with. */
  datatype Outcome = Pass | Fail(error: Error)
}
