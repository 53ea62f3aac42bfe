/**
 The outcome types shared by the repositories and the services: a nullable
 query result, the error kinds the services throw, and the result of a
 service call that either throws one of those errors or returns a value.
 */
module Outcomes {

  /** What a Prisma `findFirst`/`findUnique` returns: a row or `null`. */
  datatype Option<+T> = None | Some(value: T)

  /** The application errors thrown by the services. */
  datatype ErrorKind =
    | DuplicatedTitle
    | NotFound
    | Unauthorized
    | DuplicatedEmail

  /** A service call either throws an `ErrorKind` or returns a value. */
  datatype Result<+T> = Ok(value: T) | Err(error: ErrorKind)

  /** A validation step (`validateTitle`, `validateEmail`) throws or returns nothing. */
  datatype Check = Pass | Fail(error: ErrorKind)
}
