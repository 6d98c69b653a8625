/** Optional values and the exceptions the axiom set throws, as values. */
module Errors {

  /** A nullable reference: `None` is Java's `null`. */
  datatype Option<+T> = None | Some(value: T)

  /** The exceptions thrown by the axiom set. */
  datatype Error =
    | IllegalState                    // IllegalStateException
    | IOError                         // IOException, including end of stream
    | StoreFailure                    // an exception from the store's write path
    | UnsupportedVersion(version: bv8) // UnsupportedOperationException("Unknown version: ...")

  /** The result of a Java method that returns a value or throws. */
  datatype Result<+T> = Success(value: T) | Failure(error: Error)

  /** The result of a `void` Java method: it returns normally or throws. */
  datatype Outcome = Pass | Fail(error: Error)
}
