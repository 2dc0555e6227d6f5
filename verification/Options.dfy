// A value or none: a Go result with a flag, or a pointer that may be nil.
module Options {

  datatype Option<T> = None | Some(value: T)
}
