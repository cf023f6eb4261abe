/** The optional value returned by a regular-expression search: `None` where
    Python's `re.search` returns `None`, `Some(text)` for the matched text. */
module Wrappers {

  datatype Option<+T> = None | Some(value: T)
}
