/** The usual Some/None datatype, used for the source's "value or nothing" results. */
module Wrappers {

  datatype Option<+T> = None | Some(value: T)
}
