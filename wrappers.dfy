/** The optional value the model uses where the source returns `None` or a value. */
module Wrappers {

  datatype Option<+T> = None | Some(value: T)
}
