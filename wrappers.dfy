/** Optional values: an argument left out on the command line, a start time that is not set. */
module Wrappers {

  datatype Option<+T> = None | Some(value: T)

}
