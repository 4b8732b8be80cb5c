/** The optional value used for a not-yet-set previous time and for decoders that may fail. */
module Wrappers {

  datatype Option<+T> = None | Some(value: T)
}
