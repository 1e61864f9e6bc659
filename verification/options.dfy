/** A JavaScript value that may be `undefined`, or the outcome of a reading that may
    reject its text: `None` for the missing value or the rejected text. */
module Options {

  datatype Option<+T> = None | Some(value: T) {

    /** `x || fallback` for an `x` that is either `undefined` or never falsy. */
    function Otherwise(fallback: T): T {
      if Some? then value else fallback
    }
  }
}
