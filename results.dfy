/** Option and Result wrappers, and the error kinds the pipeline raises.

    The error kinds follow the class hierarchy of src/errors.js (only as tags)
    plus the two kinds the JavaScript runtime raises on its own: a TypeError
    (property access on undefined, iteration over undefined) and the
    `invariant` library's violation. */
module Results {

  datatype Option<+T> = None | Some(value: T) {
    function GetOr(default: T): T {
      match this
      case Some(v) => v
      case None => default
    }
  }

  datatype Error =
    | PlainError(message: string)          // `new Error(message)`
    | SecurityError(message: string)       // errors.js SecurityError
    | ProcessSpawnError(message: string)   // a subprocess that failed
    | InvariantViolation(message: string)  // the `invariant` library
    | TypeError(message: string)           // raised by the JavaScript runtime

  datatype Result<+T> = Ok(value: T) | Err(error: Error) {
    predicate IsFailure() { Err? }

    function PropagateFailure<U>(): Result<U>
      requires Err?
    {
      Err(error)
    }

    function Extract(): T
      requires Ok?
    {
      value
    }
  }
}
