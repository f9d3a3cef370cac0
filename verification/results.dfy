/** What a call answers: a value, or the Python exception it raises. */
module Results {

  datatype Option<+T> = None | Some(value: T) {
    function GetOr(default: T): T {
      if None? then default else value
    }
  }

  datatype Error =
    | ValueError
    | ValueErrorAt(index: nat)   // a ValueError naming the position of the argument it refused
    | TypeError
    | RuntimeError
    | OverflowError

  datatype Result<+T> = Ok(value: T) | Raised(error: Error)
}
