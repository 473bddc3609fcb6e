/** The optional value shared by the decoders and the game state. */
module Wrappers {
  datatype Option<T> = None | Some(value: T)
}
