/** The optional value used for JavaScript's `null`/`undefined` results
    (a regular expression that does not match, a date that does not parse,
    a feed that could not be fetched). */
module Wrappers {

  datatype Option<+T> = None | Some(value: T) {

    /** The value, or `default` when there is none: JavaScript's `x ?? default`. */
    function GetOr(default: T): T {
      match this
      case Some(v) => v
      case None => default
    }
  }
}
