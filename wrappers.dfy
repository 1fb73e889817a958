/** The optional-value datatype used throughout the model. */
module Wrappers {

  /** A value that may be absent: a fetched page that may have failed,
      a match that may not exist. */
  datatype Option<+T> = None | Some(value: T)
}
