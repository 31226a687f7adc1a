/**
 Failure-carrying return types. The source signals its error cases with
 `assert` and represents absent sub-expressions with null pointers; the model
 makes both explicit in the result type.
 */
module Results {

  /** A possibly-absent value; `None` plays the role of a null pointer. */
  datatype Option<+T> = None | Some(value: T)

  /** Either a value or the reason the operation could not produce one.
      The three members make `Result` usable with `:-`. */
  datatype Result<+T, +E> = Ok(value: T) | Err(error: E) {

    predicate IsFailure() {
      Err?
    }

    function PropagateFailure<U>(): Result<U, E>
      requires Err?
    {
      Err(error)
    }

    function Extract(): T
      requires Ok?
    {
      value
    }
  }
}
