/** Option and Result, with the constructor names Rust uses (Ok/Err), so that they do not
    clash with the Success/Failure/Forward outcomes of the web framework. */
module Results {

  datatype Option<+T> = None | Some(value: T) {
    /** `Option::unwrap_or` */
    function UnwrapOr(default: T): T {
      match this
      case Some(v) => v
      case None => default
    }
  }

  datatype Result<+T, +E> = Ok(value: T) | Err(error: E)
}
