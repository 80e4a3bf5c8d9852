/** Small helper datatypes shared by the URL-shortener modules. */
module Wrappers {

  /** A value that may be missing, as a query's `.first()` result or a JSON field. */
  datatype Option<+T> = None | Some(value: T)
}
