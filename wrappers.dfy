/** The "no value" channel of the field parsers: Python's `Optional[...]`. */
module Wrappers {

  datatype Option<+T> = None | Some(value: T)
}
