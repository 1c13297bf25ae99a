/** Failure-compatible wrappers shared by the modules of the timetable model. */
module Wrappers {

  /** A value that may be absent: JavaScript's `null` / `undefined`. */
  datatype Option<+T> = None | Some(value: T) {
    function GetOr(default: T): T {
      match this
      case Some(v) => v
      case None => default
    }
  }

  /** The outcome of a computation that may throw a `TypeError` in the source. */
  datatype Result<+T> = Ok(value: T) | Throws(reason: string)
}
