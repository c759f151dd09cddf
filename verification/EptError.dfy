/** What the ownership registries answer. */
module EptError {
  datatype Error = AlreadyOwned | NotMapped | InvalidGuest | Full | Invariant

  datatype Result<T> = Ok(value: T) | Err(error: Error) {
    predicate IsFailure() { Err? }
    function PropagateFailure<U>(): Result<U> requires Err? { Err(error) }
    function Extract(): T requires Ok? { value }
  }
}
