/** An argument a caller may leave out. */
module Option {

  datatype Option<+T> = None | Some(value: T) {

    /** What the caller passed, falling back to `fallback` when nothing was passed. */
    function ValueOr(fallback: T): T {
      if Some? then value else fallback
    }
  }
}
