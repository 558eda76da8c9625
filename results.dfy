/** Failure-compatible wrappers shared by the schema and service modules. */
module Results {

  /** Either an accepted value or the reason it was refused. */
  datatype Result<+T, +E> = Ok(value: T) | Err(error: E) {

    predicate IsFailure() {
      Err?
    }

    function PropagateFailure<U>(): Result<U, E>
      requires Err?
    {
      Err(error)
    }

    function Extract(): T
      requires Ok?
    {
      value
    }
  }

  /** A value that may be absent, e.g. a row looked up by its key. */
  datatype Option<+T> = None | Some(value: T)
}
