/** Success-or-error values: the model's stand-in for Python exceptions. */
module Results {

  /** A value, or the error that was raised instead of producing it. */
  datatype Result<+T, +E> = Ok(value: T) | Err(error: E)

  /** The outcome of a step that produces no value, such as saving a file. */
  datatype Outcome = Done | Failed(message: string)
}
