/** Results of operations that can raise in the source. */
module Outcomes {

  /** The Python exceptions that the modelled code can raise. */
  datatype Fault = ZeroDivisionError | KeyError | ValueError

  datatype Result<T> = Ok(value: T) | Err(fault: Fault)
}
