/** Optional values and results with the exceptions the C# code raises. */
module Wrappers {

  /** A value that may be absent: the model of a C# `null` result. */
  datatype Option<+T> = None | Some(value: T)

  /** The .NET exceptions the core can raise, by kind. */
  datatype Error =
    | DivideByZero        // `x % 0` on integers
    | ArgumentOutOfRange  // a negative element count given to `Enumerable.Repeat`, `ElementAt` out of range
    | Argument            // an `ArgumentException` thrown by the core itself
    | InvalidOperation    // `Last()` on an empty sequence

  /** Either the value an operation returns or the exception it raises. */
  datatype Result<+T> = Success(value: T) | Failure(error: Error)

  /** Either normal completion or the exception a statement raises. */
  datatype Outcome = Pass | Fail(error: Error)
}
