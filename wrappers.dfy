module Wrappers {

  datatype Option<T> = None | Some(value: T)

  /** A step that either produces a value or aborts the run with a fatal error. */
  datatype Outcome<T> = Ok(value: T) | Fatal(error: FatalError)

  datatype FatalError =
    | LengthMismatch   // assigning a list of names of the wrong length to a frame's columns
    | NoAdjCloseColumns
    | MissingValuesRemain
    | ConstantColumnsRemain
    | InvalidComparison  // comparing a text column with a number
    | AmbiguousTruthValue  // testing a two-column frame, selected by a repeated label, as a condition
    | MissingPairColumn  // reading back a saved table that has no columns, hence no `Pair`
}
