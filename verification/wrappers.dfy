/** An optional value: `None` where the source returns Python's `None`. */
module Wrappers {

  datatype Option<+T> = None | Some(value: T)
}
