/** The "maybe a value" type used for Python's `Optional[...]` results and `None` links. */
module Wrappers {

  datatype Option<+X> = None | Some(value: X)
}
