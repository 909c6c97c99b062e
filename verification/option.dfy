/** The optional value every partial step of the pipeline returns. */
module Optional {

  /** `None` stands for the source's `None` return or a caught exception. */
  datatype Option<+T> = None | Some(value: T)
}
