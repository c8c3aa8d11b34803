/** Optional values (Java's null and java.util.Optional) and results that
    carry either a value or the error a Java method would have thrown. */
module Wrappers {

  /** A value that may be absent: a nullable Java reference or an Optional. */
  datatype Option<T> = None | Some(value: T)

  /** The outcome of an operation that either returns normally or throws. */
  datatype Result<T, E> = Success(value: T) | Failure(error: E)
}
