/** An optional value, for results the source leaves absent. */
module Wrappers {

  datatype Option<+T> = None | Some(value: T)
}
