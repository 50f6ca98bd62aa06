/** The optional value used across the model, in place of JavaScript's `undefined`/`-1`/`null` returns. */
module Wrappers {
  datatype Option<T> = None | Some(value: T)
}
