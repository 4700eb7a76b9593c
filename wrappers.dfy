/** Wrappers shared by the session store model. */
module Wrappers {

  /** A value that may be absent. On an operation's result, `None` means
      the operation returned without ever delivering a result. */
  datatype Option<+T> = None | Some(value: T)

  /** Either a payload or an error, never both. */
  datatype Result<+T, +E> = Ok(value: T) | Err(error: E)
}
