/** The optional value that stands in for a C# reference that may be null. */
module Options {

  datatype Option<+T> = None | Some(value: T)

}
