/** The optional value returned by a lookup that may miss, such as reading an
    environment variable or a dictionary key. */
module Wrappers {

  datatype Option<+T> = None | Some(value: T)
}
