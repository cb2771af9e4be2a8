/** The optional value used for table cells that may be absent. */
module Wrappers {

  /** `None` stands for a JavaScript `null` or `undefined` value. */
  datatype Option<+T> = None | Some(value: T)
}
