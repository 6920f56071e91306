/** The optional value used wherever the analysis code returns `None`. */
module Options {

  datatype Option<+T> = None | Some(value: T)

}
