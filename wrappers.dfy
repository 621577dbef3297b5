/** Option and Result values used in place of Python's None and raised exceptions. */
module Wrappers {

  datatype Option<+T> = None | Some(value: T)

  datatype Result<+T, +E> = Ok(value: T) | Err(error: E)

  /** Python's `str(x)` (and an f-string field) for an optional string: None prints as "None". */
  function OptionText(o: Option<string>): string
  {
    match o
    case None => "None"
    case Some(s) => s
  }
}
