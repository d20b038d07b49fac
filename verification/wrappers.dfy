/**
 * The two wrappers the model uses for Java's null and for the exceptions
 * the library lets escape.
 */
module Wrappers {

  /** A Java reference that may be null. */
  datatype Option<T> = None | Some(value: T)
  {
    function GetOr(default: T): T
    {
      if Some? then value else default
    }
  }

  /** The outcome of a call that may throw. */
  datatype Result<T, E> = Ok(value: T) | Err(error: E)

}
