/** Failure-compatible wrappers used throughout the model. Errors are
    carried as strings so that the exact messages the tool reports can be
    stated in contracts. */
module Results {

  /** An optional value, the model of a nil-able reference or a "not found". */
  datatype Option<+T> = None | Some(value: T)

  /** The outcome of a Go call that returns `(T, error)`. */
  datatype Result<+T> = Ok(value: T) | Err(error: string) {

    predicate IsFailure() {
      Err?
    }

    function PropagateFailure<U>(): Result<U>
      requires Err?
    {
      Err(error)
    }

    function Extract(): T
      requires Ok?
    {
      value
    }
  }
}
