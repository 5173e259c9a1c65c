/** A value that may be missing, and what a flag counts for. */
module Options {
  datatype Option<+T> = None | Some(value: T)

  function Count(b: bool): nat {
    if b then 1 else 0
  }
}
