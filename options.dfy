/** An optional value: a header or query value that may be missing (Python's None),
    and the result of a parser that may reject its input. */
module Options {

  datatype Option<+T> = None | Some(value: T) {

    /** The value, or the given default when there is none. */
    function GetOr(default: T): T {
      match this
      case Some(v) => v
      case None => default
    }
  }
}
