/** A value that may be absent: the model's stand-in for a Python call that
    either returns a value or raises. */
module Wrappers {

  datatype Option<+T> = None | Some(value: T)
}
