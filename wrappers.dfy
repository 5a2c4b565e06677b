/** The conventional Some/None datatype, used for optional form fields and
    for query results that may be empty. */
module Wrappers {

  datatype Option<+T> = None | Some(value: T)
}
