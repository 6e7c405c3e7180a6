/** A value that may be absent: the null pointer of the library, or a run that aborts. */
module Wrappers {

  datatype Option<+T> = None | Some(value: T)
}
