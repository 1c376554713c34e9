/** `Option`: a value that may be missing (JavaScript's `undefined` /
    `null`), shared by the other modules. */
module Wrappers {

  /** A value that may be missing: JavaScript's `undefined` / `null`. */
  datatype Option<+T> = None | Some(value: T)
}
