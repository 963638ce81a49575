/** Option, for the source's "no value" returns and raised errors. */
module Wrappers {
  datatype Option<T> = None | Some(value: T)
}
