/** A value that may be absent: the model's stand-in for a null pointer result. */
module Wrappers {

  datatype Option<+T> = None | Some(value: T)
}
