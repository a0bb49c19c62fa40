/** Small failure-carrying datatypes shared by the other modules. */
module Common {

  /** A value that may be absent; stands for the script's `null`-able variables. */
  datatype Option<T> = None | Some(value: T)

  /** The outcome of an operation that either produces a value or stops with an error
      (the script's `alert(...); return;` paths). */
  datatype Result<T, E> = Success(value: T) | Failure(error: E)
}
