/** The optional-value datatype shared by the model: a JavaScript value that may be
    `undefined`/`null` is `None`, a present one is `Some`. */
module Wrappers {

  datatype Option<+T> = None | Some(value: T) {

    /** The value, or `default` when absent (JavaScript's `??`). */
    function GetOr(default: T): T {
      match this
      case Some(v) => v
      case None => default
    }
  }
}
