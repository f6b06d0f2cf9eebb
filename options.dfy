/** The usual optional-value datatype, used for decoders that can fail. */
module Options {

  datatype Option<+T> = None | Some(value: T)
}
