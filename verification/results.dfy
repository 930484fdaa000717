/** Failure-carrying datatypes used by the graph builder. The source signals
    failures by raising (KeyError, TypeError); the model returns them. */
module Results {

  /** A value that may be absent, such as an optional `author` object. */
  datatype Option<+T> = None | Some(value: T)

  /** Either a computed value or the error the source would have raised. */
  datatype Result<+T, +E> = Ok(value: T) | Err(error: E)
}
