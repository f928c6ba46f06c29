/** Shared wrappers: optional values, the exceptions the analysed parser can
    raise on some documents, and a failure-compatible result type. */
module Common {

  /** Python's `None` or a present value. */
  datatype Option<+T> = None | Some(value: T) {
    function GetOr(default: T): T {
      match this
      case Some(v) => v
      case None => default
    }
  }

  /** The exceptions the parser raises on some well-formed documents. */
  datatype Fault =
    | SignalIsList     // `re.search` handed a list value (TypeError)
    | UnnamedForm      // `find_parent('form', {'name': True})` gave None (AttributeError)
    | NoContentRoot    // neither `<main>` nor `<body>` exists (AttributeError on None)

  /** A value, or the exception the parser would have raised. */
  datatype Result<+T> = Ok(value: T) | Err(fault: Fault) {
    predicate IsFailure() {
      Err?
    }

    function PropagateFailure<U>(): Result<U>
      requires Err?
    {
      Err(fault)
    }

    function Extract(): T
      requires Ok?
    {
      value
    }
  }
}
