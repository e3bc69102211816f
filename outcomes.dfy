/** Optional values and the outcomes of record operations that can raise. */
module Outcomes {

  datatype Option<T> = None | Some(value: T) {
    function GetOr(default: T): T {
      match this
      case Some(v) => v
      case None => default
    }
  }

  /** The exceptions a record operation can raise, one constructor per kind. */
  datatype Error =
    | ArgumentError   // a constructor given more values than declared fields
    | TypeError       // a class mismatch in `==`, or an integer key past the assigned slots
    | NameError       // a key that does not form a legal instance-variable name
    | RangeError      // an Integer index that does not fit in a C `long`
    | ForeignLookup   // `dig` asked a non-record value to look up a key

  datatype Result<T> = Ok(value: T) | Err(error: Error)
}
