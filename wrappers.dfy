/** The optional value shared by the decoders and the range parser. */
module Wrappers {
  /** A value, or none: a failed decode or a part the pattern does not match. */
  datatype Option<T> = None | Some(value: T)
}
