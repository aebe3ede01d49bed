/** Optional values, standing for Kotlin's nullable results (`Int?`, `find`). */
module Wrappers {
  datatype Option<+T> = None | Some(value: T)
}
