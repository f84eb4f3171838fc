/** The optional-value datatype used for the source's `null` results and for
    operations that can throw (URL parsing, percent-decoding). */
module Wrappers {

  datatype Option<+T> = None | Some(value: T)
}
