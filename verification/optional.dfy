/** The Option datatype used for library calls that may fail and for
    searches that may find nothing. */
module Optional {

  datatype Option<+T> = None | Some(value: T)
}
