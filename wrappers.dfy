/** Outcome types shared by the model of the file repository. */
module Wrappers {

  /** A value or the absence of one; `None` stands for C#'s `null`. */
  datatype Option<+T> = None | Some(value: T)

  /** The kinds of exception the repository raises.
      - InvalidArgument: an `ArgumentException` about a null or blank path;
      - AlreadyExists: the file (or the destination of a copy or move) exists;
      - NotFound: the file (or the source of a copy or move) does not exist;
      - StorageFailure: the database or the large-object store failed. */
  datatype Error = InvalidArgument | AlreadyExists | NotFound | StorageFailure

  /** The value a repository operation returns, or the exception it throws. */
  datatype Result<+T> = Ok(value: T) | Err(error: Error)

  /** A step of a transaction that the environment makes fail: `FailAt(k)`
      makes the k-th storage call of the operation (counting from 0) throw. */
  datatype Fault = NoFault | FailAt(step: nat)
}
