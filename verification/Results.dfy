/** The outcome types shared by all modules. */
module Results {
  datatype Option<+T> = None | Some(value: T)

  /** The errors the service tells apart; every other failure is Internal. */
  datatype Error = NotFound | Conflict | Forbidden | BadRequest | Internal

  datatype Result<+T> = Ok(value: T) | Err(error: Error)
}
