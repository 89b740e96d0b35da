/**
 Optional values and results with an error message, the two shapes Python
 code expresses with `None` and with exceptions.
 */
module Results {

  /** A value that may be absent (`None` in Python). */
  datatype Option<T> = None | Some(value: T)

  /** The outcome of a step that can raise: a value, or the message of the
      exception. */
  datatype Result<T> = Ok(value: T) | Err(message: string)
}
