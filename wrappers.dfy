/** The optional value used wherever the JavaScript code returns `null`,
    `undefined` or throws on an empty input. */
module Wrappers {
  datatype Option<+T> = None | Some(value: T)
}
