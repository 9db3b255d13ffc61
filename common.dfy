/** Failure-carrying results shared by the storage layer. */
module Common {

  /** The ways an operation of the storage layer can fail. The first three are the
      variants of DataFileError; MalformedRecord stands for a bincode decode error
      and IoFailure for an error of the operating system passed on with `?`. */
  datatype Error =
    | NotADirectory
    | IncompleteRead
    | IncompleteWrite
    | MalformedRecord
    | IoFailure

  datatype Option<+T> = None | Some(value: T)

  datatype Result<+T> = Ok(value: T) | Err(error: Error)
}
