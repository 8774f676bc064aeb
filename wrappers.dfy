/** Option: the value-or-nothing type used for every partial operation of the model
    (a decoder that fails, a regex that does not match, a lookup that finds nothing). */
module Wrappers {

  datatype Option<+T> = None | Some(value: T) {

    /** The contained value, or `default` when there is none. */
    function GetOr(default: T): T {
      match this
      case Some(v) => v
      case None => default
    }
  }
}
