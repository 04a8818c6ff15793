/** An optional value, for the places where the program returns either a value
    or Python's `None`. */
module Wrappers {

  datatype Option<+T> = None | Some(value: T)
}
