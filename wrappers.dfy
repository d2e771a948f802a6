/** Option stands for Java's nullable references throughout the model, and Outcome
    for how a Java call ends: with a value, or by throwing. */
module Wrappers {

  /** None plays the part of Java's null. */
  datatype Option<+T> = None | Some(value: T) {

    /** The value, or the given default when there is none. */
    function GetOr(default: T): T {
      match this
      case Some(v) => v
      case None => default
    }
  }

  /** The exceptions the server's code throws or catches. */
  datatype Exception =
    | IOException(message: string)
    | NumberFormatException
    | IllegalArgumentException
    | IllegalStateException
    | NullPointerException

  /** A call that returned a value, or one that threw. */
  datatype Outcome<+T> = Returned(value: T) | Threw(exception: Exception)
}
