/** Optional values: a JavaScript `undefined` result or a missing document field. */
module Wrappers {

  datatype Option<+T> = None | Some(value: T)
}
