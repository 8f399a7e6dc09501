/** Optional values, used for the reference parsers of the textual encodings. */
module Wrappers {

  datatype Option<+T> = None | Some(value: T)
}
