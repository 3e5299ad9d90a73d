/** The optional value returned by the parser (`None` when the text is not valid Python). */
module Wrappers {
  datatype Option<T> = None | Some(value: T)
}
