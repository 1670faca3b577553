/** Nullable values, results and the error kinds the name-sorting core raises. */
module Outcomes {

  /** A reference that may be null: `None` stands for C#'s `null`. */
  datatype Option<+T> = None | Some(value: T)

  /** The error kinds raised by the core, one constructor per exception it throws. */
  datatype Error =
    | ArgumentNull(paramName: string)  // ArgumentNullException for a missing argument
    | BlankName                        // ArgumentException: null, empty or whitespace name
    | TooFewParts                      // ArgumentException: fewer than two name parts
    | InvalidPart                      // ArgumentException: a part that is only whitespace
    | Canceled                         // OperationCanceledException from the cancellation check

  /** The outcome of an operation that either returns a value or throws. */
  datatype Result<+T> = Ok(value: T) | Err(error: Error)
}
