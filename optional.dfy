/** The absent-or-present value used where the Go code returns a nil pointer,
    a nil error or a `(value, ok)` pair. */
module Optional {

  datatype Option<+T> = None | Some(value: T)

}
