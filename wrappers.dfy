/** The optional value used for PHP's nullable types (`?string`, `?User`, `?Tag`). */
module Wrappers {
  datatype Option<+T> = None | Some(value: T)
}
