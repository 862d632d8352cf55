/** Optional values (Java's nullable references) and results (Java's checked exceptions). */
module Wrappers {

  /** `None` stands for a Java `null`. */
  datatype Option<+T> = None | Some(value: T) {

    /** The value, or `default` when there is none. */
    function GetOr(default: T): T
    {
      match this
      case Some(v) => v
      case None => default
    }
  }

  /** Either a value or the exception the Java code would throw. */
  datatype Result<+R, +E> = Ok(value: R) | Err(error: E)
}
