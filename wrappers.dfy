/** The optional value used wherever the Python code has `None`, a missing
    dictionary entry or a missing (NaN) table cell. */
module Wrappers {

  datatype Option<+T> = None | Some(value: T)

}
