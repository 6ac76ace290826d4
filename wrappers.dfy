/** Failure-carrying results and the Python exception kinds the core raises. */
module Wrappers {

  datatype Option<+T> = None | Some(value: T)

  datatype Result<+T, +E> = Ok(value: T) | Err(error: E)

  /** The exceptions the modelled code raises, by Python class. */
  datatype Error =
    | ValueError(reason: string)   // malformed grid text, list or shape
    | IndexError                   // coordinates outside the grid
    | OverflowError                // a value numpy's unsigned cells cannot hold
    | KeyError(key: int)           // missing set element or dictionary key
    | AttributeError(name: string) // misspelled attribute
    | ZeroDivisionError            // block arithmetic on the empty grid
}
