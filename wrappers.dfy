/** The optional value used for JSON parse outcomes, query parameters and lookups. */
module Wrappers {

  datatype Option<+T> = None | Some(value: T)
}
