/** Optional values (Java's nullable references) and results (a value or a thrown exception). */
module Wrappers {

  /** `None` stands for Java's `null`. */
  datatype Option<+T> = None | Some(value: T)

  /** `Err` stands for an exception thrown out of the modelled operation. */
  datatype Result<+T, +E> = Ok(value: T) | Err(error: E)
}
