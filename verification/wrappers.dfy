/** The optional value used for every fallible step of the model. */
module Wrappers {

  /** `None` stands for a missing map entry or a failed I/O step. */
  datatype Option<+T> = None | Some(value: T) {

    /** The wrapped value, or `default` when there is none. */
    function GetOr(default: T): T {
      match this
      case Some(v) => v
      case None => default
    }
  }
}
