/** Failure-compatible wrappers shared by every module of the model:
    `Option` for JavaScript's `undefined`, `Result` for a thrown `Error`. */
module Results {

  datatype Option<+T> = None | Some(value: T)

  /** The outcome of an operation that throws in the original program. */
  datatype Result<+T> = Ok(value: T) | Err(message: string) {

    predicate IsFailure() {
      Err?
    }

    function PropagateFailure<U>(): Result<U>
      requires Err?
    {
      Err(message)
    }

    function Extract(): T
      requires Ok?
    {
      value
    }
  }
}
