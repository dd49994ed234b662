/** Optional values, used where the source returns a value together with a
    possibly-nil error and only the presence of the error matters. */
module Wrappers {

  datatype Option<+T> = None | Some(value: T)
}
