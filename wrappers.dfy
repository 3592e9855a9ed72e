/** The optional result the source expresses with `null` or by printing nothing. */
module Wrappers {

  datatype Option<T> = None | Some(value: T)
}
