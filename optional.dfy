/** The Option datatype used for Python's `Optional[...]` values and for
    parsers that either succeed with a value or fail. */
module Optional {

  datatype Option<+T> = None | Some(value: T)
}
