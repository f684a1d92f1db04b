/** Small failure-carrying datatypes shared by the wiki modules. */
module Results {

  datatype Option<+T> = None | Some(value: T)

  /** A Go `(value, error)` pair: exactly one of the two is meaningful. */
  datatype Result<+T> = Ok(value: T) | Err(msg: string)
}
