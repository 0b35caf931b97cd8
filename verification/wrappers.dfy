/** The optional value used wherever the scraper reads something the page may
    not have (an attribute, an element, a parsed date, a loaded article). */
module Wrappers {

  datatype Option<+T> = None | Some(value: T) {

    /** The carried value, or `default` when there is none. */
    function GetOr(default: T): T {
      match this
      case Some(v) => v
      case None => default
    }
  }
}
