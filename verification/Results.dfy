/** Failure-carrying values shared by every component: the counterparts of
    `std::optional`, `td::Status` and `td::Result`. */
module Results {

  datatype Option<+T> = None | Some(value: T)

  /** An error status: the numeric code and the message. */
  datatype Error = Error(code: int, message: string)

  datatype Result<+T> = Ok(value: T) | Err(error: Error)
}
