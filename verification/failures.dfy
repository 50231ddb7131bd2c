/** Failure-carrying values shared by the indexing pipeline. */
module Failures {

  datatype Option<+T> = None | Some(value: T)

  /** The exceptions that end the processing of a corpus subdirectory. */
  datatype Error =
      /** doc.json is missing, unreadable or not a JSON object. */
    | LoadError(directory: string)
      /** An indexed field that is present in the metadata has a type the builder cannot route. */
    | UnknownType(typeName: string)
      /** `toString()` was called on a null metadata value. */
    | NullValue(field: string)
      /** The document counter was taken modulo a commit frequency of zero. */
    | DivisionByZero

  datatype Result<+T> = Ok(value: T) | Err(error: Error)

  datatype Outcome = Pass | Fail(error: Error)
}
