/** Success/failure values used in place of the `["ERROR", message]` sentinel lists of pyp5. */
module Results {

  /** A value, or the text of the error pyp5 would have reported. */
  datatype Result<+T> = Ok(value: T) | Err(msg: string)

  datatype Option<+T> = None | Some(value: T)
}
