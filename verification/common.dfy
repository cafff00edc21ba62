/** Result shapes shared by every part of the model: optional values, the
    value a failed remote call (or a thrown exception) carries, and the
    outcome of one call to the hosted store. */
module Common {

  /** A value that may be missing (`null` / `undefined` in the source). */
  datatype Option<T> = None | Some(value: T) {
    /** The value, or `default` when it is missing (the source's `x || default` on objects). */
    function GetOr(default: T): T {
      if Some? then value else default
    }
  }

  /** What a failed call raises: a backend error code (empty when there is
      none), its message, and whether the raised value is an `Error`
      instance (the store shows the message only in that case). */
  datatype Fault = Fault(code: string, message: string, isError: bool)

  /** The outcome of one call to the remote store, or of an async operation
      as its caller sees it (resolved with a value, or rejected). */
  datatype Outcome<T> = Success(value: T) | Failure(fault: Fault)

  function Min(a: int, b: int): int {
    if a <= b then a else b
  }
}
