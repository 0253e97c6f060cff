/** Failure-compatible types shared by all components. */
module Results {

  datatype Option<+T> = None | Some(value: T)

  /** `Err` stands for a thrown exception, or for an error object that is returned. */
  datatype Result<+T, +E> = Ok(value: T) | Err(error: E) {
    predicate IsFailure() {
      Err?
    }

    function PropagateFailure<U>(): Result<U, E>
      requires Err?
    {
      Err(error)
    }

    function Extract(): T
      requires Ok?
    {
      value
    }
  }
}
