/** The optional value used wherever the scraper or the cleaner may produce Python's `None`. */
module Wrappers {

  datatype Option<+T> = None | Some(value: T)
}
