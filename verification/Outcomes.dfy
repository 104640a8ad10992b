/** What a step of the program can end in. */
module Outcomes {

  /** A value, an error the caller is told about, or an index out of range that stops the program. */
  datatype Outcome<+T> = Done(value: T) | Refused | Panicked

  datatype Option<+T> = None | Some(value: T)
}
