/** Failure-compatible wrappers used across the model, and the exceptions
    the SVD loader can raise. */
module Wrappers {

  datatype Option<+T> = None | Some(value: T) {

    /** The value, or `default` when absent (Python's `getattr(node, attr, default)`). */
    function GetOr(default: T): T {
      match this
      case Some(v) => v
      case None => default
    }
  }

  datatype Result<+T, +E> = Ok(value: T) | Err(error: E) {

    predicate IsFailure() {
      Err?
    }

    function PropagateFailure<U>(): Result<U, E>
      requires Err?
    {
      Err(error)
    }

    function Extract(): T
      requires Ok?
    {
      value
    }
  }
}

/** The Python exceptions that escape (or are caught by) the SVD loader. */
module Errors {

  datatype Error =
    | AttributeError(attribute: string)   // a required child element is absent
    | ValueError(text: string)            // `int(...)` rejected the text
    | KeyError(key: string)               // a SmartDict lookup or delete found nothing
    | TypeError(template: string)         // `name % label` could not format the name template
    | IndexError                          // a `bitRange` with fewer than two parts
    | AssertionError(field: string)       // a field with none of the three bit-range encodings
    | NonFatal(message: string)           // SVDNonFatalError, caught by the peripheral loop
}
