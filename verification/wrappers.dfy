/** The JavaScript `null` / missing-value convention, as a value. */
module Wrappers {

  /** `None` stands for a JavaScript `null` or `undefined` result. */
  datatype Option<+T> = None | Some(value: T)
}
