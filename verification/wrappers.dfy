/** Failure-carrying datatypes shared by the user store and the referral service. */
module Wrappers {

  /** A nullable value: `None` plays the part of a NULL column or a missing field. */
  datatype Option<+T> = None | Some(value: T)

  /** Either a value or the error kind that the operation raised instead. */
  datatype Result<+T, +E> = Ok(value: T) | Err(error: E)
}
