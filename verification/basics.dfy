/** Small wrapper types shared by the rest of the model. */
module Basics {

  /** A value that may be absent: a JSON field that is missing or null. */
  datatype Option<+T> = None | Some(value: T)

  /** The outcome of one catalog lookup. The pages never inspect why a
      request failed (the reason only goes to the console), so a failure
      carries no payload. */
  datatype Result<+T> = Ok(value: T) | Failed
}
