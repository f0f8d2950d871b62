/** Optional values. A Java reference that may be null is modelled as an
    `Option`: `None` stands for null, `Some(v)` for a non-null reference. */
module Wrappers {

  datatype Option<+T> = None | Some(value: T)
}
