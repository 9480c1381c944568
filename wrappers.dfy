/** The optional result the source signals with a null reference or an
    exception. */
module Wrappers {

  datatype Option<+T> = None | Some(value: T)
}
