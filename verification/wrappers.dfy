/** The optional-value datatype the model uses where the program returns null or skips an item. */
module Wrappers {

  datatype Option<+T> = None | Some(value: T)
}
