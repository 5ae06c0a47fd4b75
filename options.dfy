/** The optional value used wherever the C# code may hold `null`. */
module Options {
  datatype Option<T> = None | Some(value: T)
}
