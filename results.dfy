/** Option and Result values for the model's partial operations and thrown errors. */
module Results {

  datatype Option<+T> = None | Some(value: T)

  /** The outcome of an ECMAScript operation that either returns a value or throws. */
  datatype Result<+T, +E> = Ok(value: T) | Err(error: E)
}
