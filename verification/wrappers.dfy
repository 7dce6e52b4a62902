/**
 * Small failure-aware types shared by the board model: an optional value, a
 * value-or-error result, and the exceptions the modelled view-model code lets
 * escape to its caller.
 */
module Wrappers {

  /** A value that may be absent (C#'s `null` or `Nullable<T>`). */
  datatype Option<+T> = None | Some(value: T)

  /** Either a value or the reason it could not be produced. */
  datatype Result<+T, +E> = Ok(value: T) | Err(error: E)

  /** The .NET exceptions that escape the modelled operations. */
  datatype Fault =
    | NotFound         // Enumerable.First found no task with the requested id
    | NullReference    // a member was read through a null reference
    | IndexOutOfRange  // ArgumentOutOfRangeException: a list was indexed with IndexOf's "not found" answer, -1
    | DateOutOfRange   // a DateTimeOffset left the range 0001-01-01 .. 9999-12-31
}
