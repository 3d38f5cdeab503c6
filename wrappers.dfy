/** The optional value used for "a station MAC was obtained or not" and for
    decoders that can fail. */
module Wrappers {

  datatype Option<+T> = None | Some(value: T)
}
