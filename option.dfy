/** The optional value used for the loader's error paths. */
module Opt {
  datatype Option<+T> = None | Some(value: T)
}
