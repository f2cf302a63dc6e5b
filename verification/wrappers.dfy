/** A value that may be absent, used for the seat selected in the action panel. */
module Wrappers {

  datatype Option<+T> = None | Some(value: T)
}
