/** The optional-value datatype used for "no predecessor" and "no path". */
module Wrappers {

  datatype Option<+T> = None | Some(value: T)
}
