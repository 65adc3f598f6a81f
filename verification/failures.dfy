/** The exceptions the modelled Java code can raise, and a Result type that
    carries either a value or one of them. */
module Failures {

  /** The Java exception kinds reachable in the modelled code. Messages are not
      modelled, only the kind. */
  datatype Failure =
    | IllegalArgument    // Preconditions.checkArgument, HashMap(capacity, loadFactor)
    | IllegalState       // OptionalDouble.orElseThrow in getMeanSegmentCounts
    | IndexOutOfBounds   // List.get, or an array index out of range
    | NullPointer        // dereferencing a missing map entry or an unset array cell
    | NegativeArraySize  // allocating an array with a negative dimension

  /** Either a value or the exception that was thrown instead. */
  datatype Result<+T> = Ok(value: T) | Err(error: Failure) {

    predicate IsFailure() {
      Err?
    }

    function PropagateFailure<U>(): Result<U>
      requires Err?
    {
      Err(error)
    }

    function Extract(): T
      requires Ok?
    {
      value
    }
  }

  /** Optional values (Java's null / absent). */
  datatype Option<+T> = None | Some(value: T)
}
