/** The optional value used wherever the console program works with a
    reference that may be null (the message key). */
module Wrappers {

  datatype Option<+T> = None | Some(value: T)
}
