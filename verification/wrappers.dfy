/** The optional-value datatype used for the JavaScript `undefined` cases. */
module Wrappers {

  /** `None` stands for a property that is `undefined` in the request. */
  datatype Option<+T> = None | Some(value: T)
}
