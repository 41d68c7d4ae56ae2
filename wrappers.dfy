/** Option and Result, and the exceptions of the Kotlin runtime that the core can raise. */
module Wrappers {

  /** A Kotlin nullable value: `None` is `null`. */
  datatype Option<+T> = None | Some(value: T)

  /** The exceptions the modelled code throws. */
  datatype Error =
    | NullPointer        // NullPointerException thrown on a null input string
    | IndexOutOfBounds   // a list or array read at an index outside its bounds
    | IllegalArgument    // `take` called with a negative count
    | NoSuchElement      // `max` called on an empty list

  /** The outcome of an operation that either returns a value or throws. */
  datatype Result<+T> = Ok(value: T) | Err(error: Error) {
    predicate IsFailure() {
      Err?
    }

    function PropagateFailure<U>(): Result<U>
      requires Err?
    {
      Err(error)
    }

    function Extract(): T
      requires Ok?
    {
      value
    }
  }
}
