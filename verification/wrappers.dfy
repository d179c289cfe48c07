/** The optional-value datatype shared by the other modules. */
module Wrappers {

  /** `None` stands for a JavaScript property that is absent or `undefined`. */
  datatype Option<+T> = None | Some(value: T) {

    /** Returns the encapsulated value, or `default` when there is none. */
    function GetOr(default: T): T {
      match this
      case Some(v) => v
      case None => default
    }
  }
}
