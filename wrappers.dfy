/** The optional value used for host lookups that may find nothing and for a picker that may be dismissed. */
module Wrappers {

  datatype Option<+T> = None | Some(value: T)
}
