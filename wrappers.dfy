/** Small value wrappers shared by the engine and the cache. */
module Wrappers {

  /** A value that may be absent: the engine's `null` result for a missing record. */
  datatype Option<+T> = None | Some(value: T)
}
