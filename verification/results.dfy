/** The error conditions the containers signal by throwing an exception, a
    result type that carries either a value or one of them, and an optional
    value (the source's `Optional`). */
module Results {

  /** `index_out_of_bound`, `container_is_empty` and `invalid_iterator`. */
  datatype Error = IndexOutOfBound | ContainerIsEmpty | InvalidIterator

  /** The outcome of an operation that may throw. */
  datatype Result<+T> = Ok(value: T) | Err(error: Error)

  /** `Optional<T>`: an empty slot (`nullopt`) or one held value. */
  datatype Option<+T> = None | Some(value: T)
}
