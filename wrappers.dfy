/** Option and Result values, and the errors the processor can raise. */
module Wrappers {

  datatype Option<+T> = None | Some(value: T)

  /** A computation that either yields a value or stops with an error, as a raised
      Python exception does. Failure-compatible, so `:-` propagates the error. */
  datatype Result<+T> = Ok(value: T) | Err(error: Error) {

    predicate IsFailure() {
      Err?
    }

    function PropagateFailure<U>(): Result<U>
      requires Err?
    {
      Err(error)
    }

    function Extract(): T
      requires Ok?
    {
      value
    }
  }

  /** The exceptions the modelled code raises. */
  datatype Error =
    | UnknownCleaner(name: string)  // no cleaner is registered under `name`
    | IndexError                    // a list was indexed past its end
    | MissingItems                  // `items` was never assigned: no root path was given
}
