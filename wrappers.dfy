/** The optional value the model returns where the source may produce nothing. */
module Wrappers {

  datatype Option<+T> = None | Some(value: T)
}
