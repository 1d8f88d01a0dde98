/** The optional value used throughout the model: JavaScript's `null` / `undefined`
    where the worker reads a value that may be missing. */
module Wrappers {

  datatype Option<+T> = None | Some(value: T)
}
