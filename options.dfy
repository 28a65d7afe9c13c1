/** The optional value the Rust code expresses with `Option<T>`. */
module Options {

  datatype Option<+T> = None | Some(value: T)
}
