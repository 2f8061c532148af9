/** The optional value used across the model (Python's `Optional[...]` / `None`). */
module Wrappers {
  datatype Option<+T> = None | Some(value: T)
}
