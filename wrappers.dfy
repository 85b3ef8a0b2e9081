/** The optional value used for nullable columns and absent remote fields. */
module Wrappers {

  /** `None` stands for Python's `None` (a SQL NULL, an absent field). */
  datatype Option<+T> = None | Some(value: T)
  {
    /** The value, or `default` when there is none. */
    function GetOr(default: T): T
    {
      match this
      case Some(v) => v
      case None => default
    }
  }
}
