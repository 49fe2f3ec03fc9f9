/** The optional value the engine returns where script.js returns `null` or an object. */
module Wrappers {
  datatype Option<T> = None | Some(value: T)
}
