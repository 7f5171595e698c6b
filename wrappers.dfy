/** The optional value the model uses wherever the source may return nil. */
module Wrappers {
  datatype Option<+T> = None | Some(value: T)
}
