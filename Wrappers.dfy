/** The optional value used for XML children that may be absent and for table cells
    that hold Python's None. */
module Wrappers {

  datatype Option<+T> = None | Some(value: T)
}
