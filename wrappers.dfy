/** Optional values: JavaScript's `undefined`/`null` results and the
    "the library threw" outcome of the collaborators the model abstracts. */
module Wrappers {

  datatype Option<+T> = None | Some(value: T) {

    /** The value, or `default` when there is none (JavaScript's `x ?? default`). */
    function GetOr(default: T): T {
      match this
      case Some(v) => v
      case None => default
    }
  }
}
