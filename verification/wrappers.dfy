/** The optional-value datatype used for the values Kotlin types as nullable
    (`String?`): the response text and an exception's message. */
module Wrappers {

  /** `None` stands for Kotlin's `null`. */
  datatype Option<+T> = None | Some(value: T) {

    /** The value, or `default` when there is none (Kotlin's `?:`). */
    function GetOr(default: T): (r: T)
      ensures Some? ==> r == value
      ensures None? ==> r == default
    {
      match this
      case Some(v) => v
      case None => default
    }
  }
}
