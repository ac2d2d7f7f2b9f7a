/** Optional values: `None` stands for a missing element or for a call that raised. */
module Wrappers {

  datatype Option<+T> = None | Some(value: T)

}
