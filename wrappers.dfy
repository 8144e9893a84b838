/** Option and Result, the shapes the source's `null` and thrown errors take here. */
module Wrappers {

  /** `None` stands for the source's `null` / `undefined`. */
  datatype Option<T> = None | Some(value: T) {

    /** The value, or `default` when absent (a JavaScript default parameter). */
    function GetOr(default: T): T {
      if Some? then value else default
    }
  }

  /** The outcome of a call that can throw: `TypeError` is the error a property
      read on `undefined` raises. */
  datatype Result<T> = Ok(value: T) | TypeError
}
