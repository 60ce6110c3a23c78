/** Option and Result values standing for Python's `None` and for the
    exceptions the report pipeline raises. */
module Wrappers {

  datatype Option<+T> = None | Some(value: T)

  /** The Python exceptions the modelled code can raise. */
  datatype Error =
    | IndexError              // a list or tuple index out of range
    | KeyError(key: string)   // a dictionary lookup of a missing key
    | ValueError(text: string) // `float(text)` on text that is not a number
    | TypeError               // arithmetic on `None`

  datatype Result<+T> = Ok(value: T) | Err(error: Error)
}
