/** Failure-carrying values: NumPy's NaN marker becomes `None`, a raised
    exception becomes `Err`. */
module Wrappers {

  datatype Option<+T> = None | Some(value: T)

  datatype Result<+T, +E> = Ok(value: T) | Err(error: E)
}
