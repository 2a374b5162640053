/** The stock optional value, standing for JavaScript's `null` / `undefined`. */
module Optional {
  datatype Option<T> = None | Some(value: T)
}
