/** Optional values: the model's stand-in for a .NET reference that may be null. */
module Wrappers {

  /** `None` plays the role of `null`; `Some(v)` is a present reference. */
  datatype Option<+T> = None | Some(value: T)
}
