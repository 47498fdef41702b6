/** Outcomes of the tree operations: Python's optional slice bounds and the
    exceptions the trees raise instead of returning a value. */
module Results {

  /** An optional slice bound: `None` is an omitted bound (`t[:e]`, `t[s:]`). */
  datatype Option<T> = None | Some(value: T)

  /** The exceptions an operation can raise. */
  datatype Error =
    | IndexError      // a list index outside the backing list
    | AssertionError  // a failed `assert` in the source

  datatype Result<T> = Ok(value: T) | Err(error: Error)
}
