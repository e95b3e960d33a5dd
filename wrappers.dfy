/** Outcomes shared by the model: a value, or the exception the code throws. */
module Wrappers {

  datatype Option<T> = None | Some(value: T)

  /** `Err` is a thrown `Error` with its message.  `Unmodelled` marks inputs on
      which the code relies on JavaScript coercions this model does not
      describe; no property is claimed for them. */
  datatype Result<T> = Ok(value: T) | Err(message: string) | Unmodelled
}
