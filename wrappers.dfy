/** Option, the `Optional[str]` result of `fetch_image`: a path, or None. */
module Wrappers {
  datatype Option<+T> = None | Some(value: T)
}
