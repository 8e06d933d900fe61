/** The optional-result type the list's partial accessors return. */
module Wrappers {

  /** `None` signals absence; `Some(value)` carries a result. */
  datatype Option<+T> = None | Some(value: T)
}
