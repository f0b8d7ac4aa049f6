/** The optional value that stands for Python's `None` in the receipt model. */
module Optional {

  datatype Option<+T> = None | Some(value: T)

}
