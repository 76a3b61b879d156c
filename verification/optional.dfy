/** The optional value used for lookups and decoding that may fail. */
module Optional {

  datatype Option<+T> = None | Some(value: T)
}
