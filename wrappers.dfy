/** Option, for API calls that may fail and for "last value written, if any". */
module Wrappers {

  datatype Option<+T> = None | Some(value: T)

}
