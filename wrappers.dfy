/** The optional value that stands for the source's nullable references and
    for the `bool TryParse(..., out T)` pattern of the .NET parsers. */
module Wrappers {

  datatype Option<+T> = None | Some(value: T) {

    /** The value, or `default` when there is none. */
    function GetOr(default: T): T {
      match this
      case Some(v) => v
      case None => default
    }
  }
}
