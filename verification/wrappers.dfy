/** Failure-compatible wrappers shared by the model. `Option.None` also stands for the
    JavaScript value `undefined` wherever the source reads a property that may be absent. */
module Wrappers {

  datatype Option<+T> = None | Some(value: T) {

    /** Returns the value in Some or the given default when None. */
    function GetOr(default: T): T {
      match this
      case Some(v) => v
      case None => default
    }
  }

  /** A computation that either yields a value or reports the message of a thrown error. */
  datatype Result<+T> = Ok(value: T) | Err(message: string)
}
