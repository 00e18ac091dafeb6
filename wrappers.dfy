/** Optional values: an absent GameObject argument (C# `null`) or a missing lookup result. */
module Wrappers {
  datatype Option<+T> = None | Some(value: T)
}
