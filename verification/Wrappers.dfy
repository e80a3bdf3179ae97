/** The optional value shared by the other modules. */
module Wrappers {
  /** A value, or its absence where Go would use nil, a false flag or an error. */
  datatype Option<+T> = Some(value: T) | None
}
