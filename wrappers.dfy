/** Option type used for the source's "None on failure" results. */
module Wrappers {
  datatype Option<+T> = None | Some(value: T)
}
