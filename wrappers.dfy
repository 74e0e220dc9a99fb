/** A nullable value: a SQL column that may hold NULL, or a lookup that may miss. */
module Wrappers {
  datatype Option<+T> = None | Some(value: T)
}
