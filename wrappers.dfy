/** Optional values: `None` stands for the NULL pointer the C code returns or accepts. */
module Wrappers {

  datatype Option<+T> = None | Some(value: T)

}
