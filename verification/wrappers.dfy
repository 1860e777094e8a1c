/** `Option`: a value, or JavaScript `null`. */
module Wrappers {

  /** `None` stands for JavaScript `null`; `Some(v)` for a present value. */
  datatype Option<+T> = None | Some(value: T)
}
