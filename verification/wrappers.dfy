/** Optional values, used for lookups and for prompts that may run out of input. */
module Wrappers {

  datatype Option<+T> = None | Some(value: T)
}
