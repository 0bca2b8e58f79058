/** A nullable value: a C++ pointer that may be nullptr, or an index that may be absent. */
module Wrappers {

  datatype Option<+T> = None | Some(value: T)
}
