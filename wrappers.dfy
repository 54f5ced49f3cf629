/** The optional-value type shared by the other modules. */
module Wrappers {

  /** A value that may be absent, as `json.loads` failing or a pattern not matching. */
  datatype Option<+T> = None | Some(value: T)
}
