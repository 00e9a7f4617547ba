/** An optional value: a DOM query that may find nothing, a timer handle
    that may not have been set yet. */
module Options {

  datatype Option<T> = None | Some(value: T)

}
