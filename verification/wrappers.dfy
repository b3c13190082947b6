/** The outcome of an operation that may fail, in place of the exceptions the scraper catches. */
module Wrappers {
  datatype Option<+T> = None | Some(value: T)
}
