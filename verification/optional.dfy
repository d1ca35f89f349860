/** The absent-or-present value that stands for Python's `None` in the grid and
    in dictionary lookups (`dict.get`). */
module Optional {
  datatype Option<+T> = None | Some(value: T)
}
