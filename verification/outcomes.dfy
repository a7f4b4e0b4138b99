/** Results of the leaderboard's operations: Java's `null` becomes `None`,
    a thrown exception becomes `Thrown`. */
module Outcomes {

  datatype Option<T> = None | Some(value: T)

  /** The runtime exceptions the leaderboard can raise. */
  datatype Exception =
    | IndexOutOfBounds  // getRange's own checks
    | NullPointer       // subSet handed a null boundary
    | IllegalArgument   // subSet handed boundaries in the wrong order

  /** A value, or the exception that ended the operation. Failure-compatible,
      so `:-` propagates an exception as Java's `throw` does. */
  datatype Outcome<T> = Ok(value: T) | Thrown(error: Exception) {

    predicate IsFailure() {
      Thrown?
    }

    function PropagateFailure<U>(): Outcome<U>
      requires Thrown?
    {
      Thrown(error)
    }

    function Extract(): T
      requires Ok?
    {
      value
    }
  }
}
