/** Small shared vocabulary: Java's nullable references and thrown exceptions. */
module Common {

  /** A Java reference that may be null. */
  datatype Option<+T> = None | Some(value: T)

  /** A call that either returns a value or throws. */
  datatype Result<+T, +E> = Success(value: T) | Failure(error: E)

  /** The Java exceptions the modelled classes can throw. */
  datatype JavaError = IndexOutOfBounds | NullPointer
}
