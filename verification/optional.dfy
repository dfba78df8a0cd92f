/** A value the readers either locate or not: a marker index, or the outcome of
    a comparison that may run off the end of a buffer. */
module Optional {

  datatype Option<+T> = None | Some(value: T)
}
