/** Error kinds and result wrappers shared by the solvers (src/error.rs, src/result.rs). */
module Errors {

  /** An optional value; a `nom` parser's outcome is `Some((value, remainder))` or `None`. */
  datatype Option<T> = None | Some(value: T)

  /** `AocError`: the three error kinds, each with its message. */
  datatype AocError =
    | ParseError(message: string)
    | NomError(message: string)
    | IoError(message: string)

  /** `AocResult<R>`: a value or an `AocError`. */
  datatype Result<T> = Ok(value: T) | Err(error: AocError)
}
