/** Optional values (Java's nullable references) and the outcome of an operation
    that may throw an unchecked exception. */
module Wrappers {

  /** A value that may be absent; `None` stands for Java's `null`. */
  datatype Option<+T> = None | Some(value: T)

  /** What a Java expression does: return a value, or raise the named exception. */
  datatype Checked<+T> = Returned(value: T) | Raised(exception: string)
}
