/** The optional value returned by a search that may find nothing
    (Swift's `Optional`, as produced by `firstIndex(of:)`). */
module Wrappers {

  datatype Option<+T> = None | Some(value: T)
}
