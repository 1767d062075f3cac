/** Failure-compatible wrappers for the word-finder model.

    `Option` stands for Rust's `Option` (its `?` operator becomes Dafny's `:-`),
    and `Result` stands for a computation that may panic: every `panic!` and
    failed `unwrap()` of the modelled code becomes an `Err` carrying the
    `Fault` that names it. Arithmetic overflow is excluded by preconditions
    instead. */
module Outcomes {

  /** The reasons the modelled code aborts. */
  datatype Fault =
    | NotAnAlphabet(letter: char)   // "Character {} is not an alphabet"
    | RowsOfDifferentSizes          // "Rows are of different sizes"
    | UnwrapOnNone                  // `Option::unwrap()` on a `None` value
    | IndexOutOfBounds              // "Index out of bounds"

  datatype Option<+T> = None | Some(value: T) {
    predicate IsFailure() {
      None?
    }

    function PropagateFailure<U>(): Option<U>
      requires None?
    {
      None
    }

    function Extract(): T
      requires Some?
    {
      value
    }
  }

  datatype Result<+T> = Ok(value: T) | Err(fault: Fault) {
    predicate IsFailure() {
      Err?
    }

    function PropagateFailure<U>(): Result<U>
      requires Err?
    {
      Err(fault)
    }

    function Extract(): T
      requires Ok?
    {
      value
    }
  }
}
