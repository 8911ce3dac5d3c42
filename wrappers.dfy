/** The Some/None datatype standing in for the engine's `null` returns and caches. */
module Wrappers {
  datatype Option<+T> = None | Some(value: T)
}
