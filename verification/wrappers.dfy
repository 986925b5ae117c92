/** The optional value shared by the route searcher and the chat server. */
module Wrappers {

  /** `None` stands for Python's `None` result, or for the `(inf, [])` "no path" answer. */
  datatype Option<+T> = None | Some(value: T)
}
