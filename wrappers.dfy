/** Optional values: `false`/`undefined` fields and `null` results of the source. */
module Wrappers {

  datatype Option<+T> = None | Some(value: T)
}
