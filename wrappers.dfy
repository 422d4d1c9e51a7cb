/** Failure-compatible wrappers and the exceptions the modelled Python code can raise. */
module Wrappers {

  datatype Option<+T> = None | Some(value: T)

  datatype Result<+T, +E> = Ok(value: T) | Err(error: E)

  /** The Python exceptions of the core, as far as the model tells them apart. */
  datatype Error =
    | ZeroDivisionError   // a rate or average over zero trials
    | KeyError            // a dictionary lookup of a missing key
    | UnboundLocalError   // `result` read after a loop over an empty list
}
