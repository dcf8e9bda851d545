/** Optional values shared by the modules of this model. */
module Wrappers {

  /** A value that may be absent (`None` stands for the C sentinels such as a full bitmap). */
  datatype Option<+T> = None | Some(value: T)
}
