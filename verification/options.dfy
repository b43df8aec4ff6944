/** A value that may be missing, as Python's `None` result of a search. */
module Options {

  datatype Option<T> = None | Some(value: T)
}
