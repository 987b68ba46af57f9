/** The conventional Some/None datatype, used wherever a search may find nothing
    or a lookup may miss. */
module Optional {

  datatype Option<+T> = None | Some(value: T)
}
