/** Failure-carrying values shared by the models of the two core classes. */
module Common {

  /** A possibly absent value: Java's nullable references. */
  datatype Option<T> = None | Some(value: T)

  /** A value or the exception that replaced it. */
  datatype Result<T, E> = Ok(value: T) | Err(error: E)
}
