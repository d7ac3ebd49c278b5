/** The optional-value datatype used for PHP's "value or false" returns. */
module Wrappers {

  /** `None` plays the part of PHP's `false` sentinel. */
  datatype Option<+T> = None | Some(value: T) {

    /** The present value, or `default` where PHP would have had no value. */
    function GetOr(default: T): T {
      match this
      case Some(v) => v
      case None => default
    }
  }
}
