/** The `null`-or-value results of the frame conversion and the codec stages. */
module Optional {

  /** `None` stands for Java's `null`, and for an exception that the caller catches and turns into `null`. */
  datatype Option<+T> = None | Some(value: T)
}
