/** Failure-carrying values shared by the modules of the template duplicator. */
module Wrappers {

  /** A value that may be absent: a regex search without a match, a file that could not be read. */
  datatype Option<T> = None | Some(value: T)
}
