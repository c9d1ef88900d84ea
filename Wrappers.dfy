/** Python's optional values (`None` or a value). */
module Wrappers {
  datatype Option<+T> = None | Some(value: T)
}
