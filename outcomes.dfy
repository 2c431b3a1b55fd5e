/**
 * Option and Result values, and the kinds of exception the reporting engine
 * of the calls-intelligence controller can raise.
 */
module Outcomes {

  /** A value that may be absent: a nullable column or reference. */
  datatype Option<+T> = None | Some(value: T)

  /** The exceptions the engine raises, by kind. */
  datatype Error =
    | DuplicateKey    // Dictionary.Add with a key that is already present (ArgumentException)
    | KeyNotFound     // the dictionary indexer with an absent key (KeyNotFoundException)
    | NullKey         // the dictionary indexer with a null key (ArgumentNullException)
    | DateOutOfRange  // DateTime.AddMonths leaving the years 1..9999 (ArgumentOutOfRangeException)

  /** The outcome of an operation that may throw; usable with `:-`. */
  datatype Result<+T> = Success(value: T) | Failure(error: Error) {

    predicate IsFailure() {
      Failure?
    }

    function PropagateFailure<U>(): Result<U>
      requires Failure?
    {
      Failure(error)
    }

    function Extract(): T
      requires Success?
    {
      value
    }
  }
}
