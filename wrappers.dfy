/** Nullable values and failing results, as the executor's callers see them. */
module Wrappers {

  /** A C# nullable (or reference) value: null is None. */
  datatype Option<+T> = None | Some(value: T) {
    function GetOr(default: T): T {
      match this
      case Some(v) => v
      case None => default
    }
  }

  /** The exceptions a terminal call can end in. */
  datatype Error =
    | EmptySequence  // InvalidOperationException: "Sequence contains no elements" (Max, Min)
    | DivideByZero   // DivideByZeroException from the decimal division in Average

  /** A value, or the exception that ended the call. */
  datatype Result<+R> = Ok(value: R) | Err(error: Error)
}
