/** Optional values: `null`/`undefined` in the modelled code. */
module Wrappers {

  datatype Option<+T> = None | Some(value: T)
}
