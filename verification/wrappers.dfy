/** The optional-value datatype the rest of the model uses for partial results:
    a failed parse, a missing regular-expression match, an unusable response. */
module Wrappers {

  datatype Option<+T> = None | Some(value: T)
}
