/** Option and Result, used for the error paths of the repository (a raised
    HTTPException or OverflowError becomes an Err value). */
module Wrappers {

  datatype Option<+T> = None | Some(value: T)

  datatype Result<+T, +E> = Ok(value: T) | Err(error: E)
}
