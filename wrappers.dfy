/** Failure-carrying results for the .NET exceptions the modelled code throws. */
module Wrappers {

  /** The exception types the modelled operations throw, by .NET name. */
  datatype Error =
    | ArgumentNull       // System.ArgumentNullException
    | InvalidOperation   // System.InvalidOperationException (also LINQ Single/First failures)
    | Argument           // System.ArgumentException
    | Format             // System.FormatException from Convert.FromBase64String
    | KeyNotFound        // System.Collections.Generic.KeyNotFoundException

  datatype Option<+T> = None | Some(value: T)

  datatype Result<+T> = Success(value: T) | Failure(error: Error) {
    predicate IsFailure() { Failure? }
    function PropagateFailure<U>(): Result<U>
      requires Failure?
    {
      Failure(error)
    }
    function Extract(): T
      requires Success?
    {
      value
    }
  }

  /** The result of an operation that returns nothing (a `void` method that may throw). */
  datatype Outcome = Pass | Fail(error: Error)
}
