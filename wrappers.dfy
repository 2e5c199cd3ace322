/** Optional values and results, standing in for C# `null` and for the
    exceptions the requirement checker and the controller can throw. */
module Wrappers {

  datatype Option<+T> = None | Some(value: T) {
    function GetOr(default: T): T {
      match this
      case Some(v) => v
      case None => default
    }
  }

  /** The exceptions the modelled code can raise. */
  datatype Failure =
    | MissingConfiguration  // InvalidOperationException: "Course equivalents are missing or malformed."
    | NoMatchingElement     // InvalidOperationException from `Enumerable.First` with a predicate
    | InvalidFormat         // FormatException or OverflowException from `int.Parse`
    | DuplicateKey          // ArgumentException from `ToDictionary` on a repeated key

  datatype Result<+T> = Ok(value: T) | Err(error: Failure)
}
