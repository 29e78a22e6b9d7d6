/** Failure-carrying datatypes shared by every service of the pipeline. */
module Results {

  /** A value that may be absent (a `null` or `undefined` reference). */
  datatype Option<+T> = None | Some(value: T)

  /** The exceptions the services let escape. */
  datatype Error =
    | Conflict             // `ConflictException`: a candidate failed its DTO check
    | ConstraintViolation  // the store rejected a duplicate unique key on insert
    | TypeError            // a property read on `undefined`, or an unparsable URL
    | NavigationFailed     // the browser could not load a page

  /** The outcome of an asynchronous call: a value or a thrown error. */
  datatype Result<+T> = Success(value: T) | Failure(error: Error)
}
