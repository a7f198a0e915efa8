/**
 The optional value used wherever the scraper works with Python's `None`:
 a category before the first header row, a cell Selenium could not find,
 a number `float()` refused.
 */
module Options {

  datatype Option<+T> = None | Some(value: T) {

    /** The wrapped value, or `default` when there is none. */
    function GetOr(default: T): T {
      match this
      case Some(v) => v
      case None => default
    }
  }
}
