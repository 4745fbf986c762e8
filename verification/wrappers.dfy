/** The optional-value datatype shared by every module of the model. */
module Wrappers {

  /** `None` stands for JavaScript's `undefined` (an absent field, a failed
      lookup); `Some(v)` carries a present value. */
  datatype Option<+T> = None | Some(value: T)
}
