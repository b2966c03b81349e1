/** The optional-value datatype used for decoders that can fail. */
module Wrappers {

  datatype Option<+T> = None | Some(value: T)
}
