/** Failure-carrying wrappers shared by the JSON viewer and the base converter. */
module Options {

  /** An optional value: `None` stands for JavaScript's `null`/`NaN` outcomes. */
  datatype Option<+T> = None | Some(value: T)

  /** The outcome of the host's `JSON.parse`: the parsed value or the exception message. */
  datatype Result<+T> = Ok(value: T) | Err(message: string)
}
