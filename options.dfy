/** The optional value used wherever a query may find no row or a column may be NULL. */
module Options {
  datatype Option<T> = None | Some(value: T)
}
