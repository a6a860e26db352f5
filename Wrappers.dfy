/** Optional values, standing in for the nullable actor handles of the controller. */
module Wrappers {

  /** `None` plays the part of a null pointer, `Some(v)` of a non-null one. */
  datatype Option<+T> = None | Some(value: T)
}
