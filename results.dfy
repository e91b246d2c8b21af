/** Failure-carrying values shared by the modules of the transcriber model:
    a Python exception raised by the source becomes an `Err`. */
module Results {

  datatype Option<+T> = None | Some(value: T)

  datatype Result<+T, +E> = Ok(value: T) | Err(error: E)
}
