/** The optional value every other module uses for a nullable column or a `None` answer. */
module Options {
  datatype Option<+T> = None | Some(value: T)
}
