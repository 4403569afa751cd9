/** Option and Result values that stand in for Java's null returns and exceptions. */
module Wrappers {

  /** A nullable reference or an absent value. */
  datatype Option<+T> = None | Some(value: T)

  /** A call that returns normally with `value` or throws `error`. */
  datatype Result<+T, +E> = Ok(value: T) | Err(error: E)
}
