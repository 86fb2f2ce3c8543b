/** The optional-value datatype used wherever JavaScript produces NaN or undefined. */
module Wrappers {

  datatype Option<+T> = None | Some(value: T)
}
