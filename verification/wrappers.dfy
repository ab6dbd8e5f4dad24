/** The optional-value type used where the program works with a value that may be
    absent: a missing JSON field, a failed service call, an unset global. */
module Wrappers {

  datatype Option<+T> = None | Some(value: T)

}
