/** Python's `None`-or-value results, shared by the queue modules. */
module Options {

  datatype Option<+T> = None | Some(value: T)
}
