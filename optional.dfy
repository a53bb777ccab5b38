/** The Option type used for operations whose Java counterpart may throw. */
module Optional {

  datatype Option<+T> = None | Some(value: T)
}
