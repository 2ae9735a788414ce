/** Option and Result: the model's stand-ins for Python's `None` and for the
    `{"success": False, "error": e}` dictionaries the pantry code returns. */
module Wrappers {

  datatype Option<+T> = None | Some(value: T)

  datatype Result<+T, +E> = Ok(value: T) | Err(error: E)
}
