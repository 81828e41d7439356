/** The optional-value wrapper used wherever the original program can produce
    `undefined` or `NaN` instead of a value. */
module Wrappers {

  /** `None` stands for a missing value: an absent alpha channel, or an
      average that the program would have computed as `NaN`. */
  datatype Option<+T> = None | Some(value: T)
}
