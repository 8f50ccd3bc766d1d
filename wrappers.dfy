/** The optional value used for Python's `Optional[...]` parameters and for
    "no match" results. */
module Wrappers {

  datatype Option<+T> = None | Some(value: T)
}
