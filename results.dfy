/** Optional values and the outcome of an operation that can throw. */
module Results {

  /** A value that may be absent; None stands for Java's null. */
  datatype Option<+T> = None | Some(value: T)

  /** The outcome of a Java call that either returns a value or throws an
      unchecked exception carrying a message. */
  datatype Result<+T> = Ok(value: T) | Err(message: string)

  /** How a Java method that returns nothing ended: normally, or by throwing
      an unchecked exception carrying a message. */
  datatype Outcome = Done | Thrown(message: string)
}
