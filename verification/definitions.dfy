/**
 * The error catalog shared by the parser and the evaluator, and the result
 * type that replaces the source's thrown errors.
 */
module Definitions {

  /** The evaluator's error slot. `NoError` stands for the empty string; the
      other five are the catalog's distinct, non-empty messages. */
  datatype ErrorMessage =
    | NoError
    | EmptyFormula
    | InvalidFormula
    | InvalidCell
    | MissingParentheses
    | DivideByZero

  datatype Option<+T> = None | Some(value: T)

  /** A value, or the classified error the source would have thrown. */
  datatype Result<+T> = Success(value: T) | Failure(error: ErrorMessage)

  /** The errors the grammar itself can raise. */
  predicate IsParseError(e: ErrorMessage) {
    e == InvalidFormula || e == MissingParentheses
  }
}
