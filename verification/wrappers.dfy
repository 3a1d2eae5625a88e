/** Optional values: JavaScript's `null` / `undefined` alternatives in the source. */
module Wrappers {

  datatype Option<+T> = None | Some(value: T)
}
