/** Option and Result types shared by every module, and the Python exceptions the
    modelled scripts can raise. A Python call that raises is modelled as a call that
    returns `Raise(e)`; one that returns normally as `Ok(v)`. */
module Wrappers {

  datatype Option<+T> = None | Some(value: T)

  /** The Python exception classes reachable from the modelled code. */
  datatype PyError =
    | IndexError     // subscripting a list or a string out of range
    | ValueError     // int() on text that is not an integer
    | StopIteration  // next() on an exhausted file iterator
    | TypeError      // file.write() given None instead of a string

  datatype Result<+T> = Ok(value: T) | Raise(error: PyError)
}
