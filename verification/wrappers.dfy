/** Option and Result: NULL pointers and fatal errors of the C code as values. */
module Wrappers {

  /** `None` stands for a NULL `char *`. */
  datatype Option<+T> = None | Some(value: T)

  /** `Err` stands for a call to `terminate` (print a message, exit with failure). */
  datatype Result<+T, +E> = Ok(value: T) | Err(error: E)
}
