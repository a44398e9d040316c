/** A value that may be missing: Go's nil, or an error whose text does not matter. */
module Wrappers {

  datatype Option<+T> = None | Some(value: T)
}
