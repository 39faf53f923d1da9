/** The optional value used by all three structures, as Rust's `Option`. */
module Options {
  datatype Option<T> = None | Some(value: T)
}
