/** Small value wrappers shared by the page models. */
module Wrappers {

  /** A value that may be absent: a JavaScript `null`/`undefined` field or a missing row. */
  datatype Option<+T> = None | Some(value: T)
}
