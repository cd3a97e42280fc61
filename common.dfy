/** Failure-carrying wrappers shared by the models of the boot sequencer and the downloader. */
module Common {

  /** A Ruby value that may be nil. */
  datatype Option<+T> = None | Some(value: T)

  /** The outcome of an operation that either returns a value or raises. */
  datatype Result<+R, +E> = Success(value: R) | Failure(error: E)
}
