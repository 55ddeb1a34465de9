/** An optional value, shared by the other modules. */
module Wrappers {

  /** A value that may be absent (TypeScript's `undefined`/`null`). */
  datatype Option<+T> = None | Some(value: T)
}
