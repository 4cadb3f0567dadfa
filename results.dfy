/** Failure-carrying values used where the program unwraps or matches on an Option. */
module Results {

  /** An optional command-line argument (clap's Option<String>). */
  datatype Option<+T> = None | Some(value: T)

  /** The outcome of an operation that the program aborts on when it fails. */
  datatype Result<+T, +E> = Ok(value: T) | Err(error: E)
}
