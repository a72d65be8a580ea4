/** The optional value used for absent environment variables and for a
    generation request that produced no text. */
module Wrappers {

  datatype Option<+T> = None | Some(value: T)
}
