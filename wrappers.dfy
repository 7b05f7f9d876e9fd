/** Option and Result values used where the Python code returns None or raises. */
module Wrappers {

  datatype Option<+T> = None | Some(value: T)

  /** The exceptions the modelled code can raise. */
  datatype Error =
    | IndexError      // a map coordinate outside the grid
    | RuntimeError    // no Town Hall among the buildings
    | ValueError      // `min` over an empty list

  datatype Result<+T> = Ok(value: T) | Err(error: Error)
}
