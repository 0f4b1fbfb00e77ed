/** Shared vocabulary for the product-page picker model: optional values, results
    with an error, and JavaScript's `x || ''` on an optional string. */
module Common {

  datatype Option<+T> = None | Some(value: T)

  datatype Result<+T, +E> = Ok(value: T) | Err(error: E)

  /** `x || ''` where `x` is a string property that may be missing:
      a missing value and the empty string both read as ''. */
  function OrEmpty(x: Option<string>): string
  {
    match x
    case Some(s) => s
    case None => ""
  }
}
