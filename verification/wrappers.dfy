/** Optional values, used for PHP's `false`/`null` results and for absent request fields. */
module Wrappers {
  datatype Option<+T> = None | Some(value: T)
}
