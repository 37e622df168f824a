/** The optional value used wherever the program works with a value that may be
    absent: JavaScript `null`/`undefined`, a lookup that finds nothing. */
module Wrappers {

  datatype Option<+T> = None | Some(value: T)
}
