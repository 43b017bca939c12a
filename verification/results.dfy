/** Outcomes of operations that the original aborts with a panic. */
module Results {

  datatype Option<+T> = None | Some(value: T)

  /** `Err` stands for a fatal condition: a failed `expect`, a panic or an arithmetic overflow. */
  datatype Result<+T, +E> = Ok(value: T) | Err(error: E) {

    predicate IsFailure() {
      Err?
    }

    function PropagateFailure<U>(): Result<U, E>
      requires Err?
    {
      Err(error)
    }

    function Extract(): T
      requires Ok?
    {
      value
    }
  }
}
